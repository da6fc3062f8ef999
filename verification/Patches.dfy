/**
 What a targeted iPATCH needs from a context beyond its own checks, and what a repetition of its
 datagram does later.
 */
module Patches {
  import opened Bits
  import opened Wrappers
  import opened RuleIds
  import opened RuleModel
  import opened Policy
  import opened TargetValues
  import opened Paths
  import opened Context
  import opened Management

  // ---------- the patched context ----------

  lemma PatchedCanonical(tree: Tree, t: TargetPath, bytes: seq<byte>)
    requires Canonical(tree)
    ensures Canonical(PatchTree(tree, t, bytes)) && RuleIdsOf(PatchTree(tree, t, bytes).rules) == RuleIdsOf(tree.rules)
  {
    var patched := PatchTree(tree, t, bytes);
    forall i | 0 <= i < |tree.rules|
      ensures CanonicalEntries(patched.rules[i].entries) && patched.rules[i].id == tree.rules[i].id
    {
      assert CanonicalEntries(tree.rules[i].entries);
    }
    forall i, j | 0 <= i < j < |tree.rules| ensures RuleKey(patched.rules[i]).AtMost(RuleKey(patched.rules[j])) {
      assert RuleKey(tree.rules[i]).AtMost(RuleKey(tree.rules[j]));
    }
  }

  lemma PatchedProtected(tree: Tree, t: TargetPath, bytes: seq<byte>)
    requires !IsManagement(tree.rules, t.selector)
    ensures ProtectionKept(tree.rules, PatchTree(tree, t, bytes).rules)
  {
    var patched := PatchTree(tree, t, bytes);
    forall r: Rule | r.nature == Management ensures r in tree.rules <==> r in patched.rules {
      if r in tree.rules {
        var i :| 0 <= i < |tree.rules| && tree.rules[i] == r;
        assert patched.rules[i] == r;
      }
      if r in patched.rules {
        var i :| 0 <= i < |patched.rules| && patched.rules[i] == r;
        assert patched.rules[i] == PatchRule(tree.rules[i], t, bytes);
        assert tree.rules[i] in tree.rules && tree.rules[i].nature == Management;
      }
    }
  }

  lemma SameIdsLoadable(recipe: Recipe, tree: Tree, candidate: Tree)
    requires Loadable(recipe, tree) && Canonical(candidate) && RuleIdsOf(candidate.rules) == RuleIdsOf(tree.rules)
    ensures Loadable(recipe, candidate) <==> recipe.loads(candidate)
  {
  }

  /** Replacing a target of an ordinary rule passes the normal form, the RuleID, namespace and protection
      checks: what is left is whether another package accepts the context. */
  lemma PatchedAdmissible(recipe: Recipe, tree: Tree, t: TargetPath, bytes: seq<byte>)
    requires Loadable(recipe, tree) && !IsManagement(tree.rules, t.selector)
    ensures Admissible(recipe, tree, PatchTree(tree, t, bytes)) <==> recipe.loads(PatchTree(tree, t, bytes))
  {
    PatchedCanonical(tree, t, bytes);
    PatchedProtected(tree, t, bytes);
    SameIdsLoadable(recipe, tree, PatchTree(tree, t, bytes));
  }

  /** A well-formed iPATCH of one target. */
  function PatchOf(sids: ModelSids, t: TargetPath, bytes: seq<byte>, tag: Option<nat>): PatchRequest {
    var path := TargetValuePath(sids, t.selector, t.entry, t.index);
    PatchRequest(true, YANG_INSTANCES, [PatchInstance(path, Some(bytes))], tag)
  }

  lemma PatchOfStep(recipe: Recipe, s: Snapshot, t: TargetPath, bytes: seq<byte>, tag: Option<nat>)
    requires ValidSelector(t.selector)
    ensures PatchStep(recipe, s, PatchOf(recipe.sids, t, bytes, tag)) == TargetStep(recipe, s, t, bytes, tag)
  {
    ParseAcceptsCanonical(TargetValuePath(recipe.sids, t.selector, t.entry, t.index), recipe.sids, t);
  }

  /** A request is bad exactly when it is not the well-formed iPATCH of one target of a valid RuleID: another address
      or content format, no operation or several, no value, or another path. It then changes nothing. */
  lemma BadRequestIff(recipe: Recipe, s: Snapshot, request: PatchRequest)
    ensures PatchStep(recipe, s, request).1 == BadRequest <==>
            !exists t: TargetPath, bytes: seq<byte> ::
               ValidSelector(t.selector) && request == PatchOf(recipe.sids, t, bytes, request.ifMatch)
    ensures PatchStep(recipe, s, request).1 != Changed ==> PatchStep(recipe, s, request).0 == s
  {
    if exists t: TargetPath, bytes: seq<byte> ::
         ValidSelector(t.selector) && request == PatchOf(recipe.sids, t, bytes, request.ifMatch)
    {
      var t: TargetPath, bytes: seq<byte> :|
        ValidSelector(t.selector) && request == PatchOf(recipe.sids, t, bytes, request.ifMatch);
      PatchOfStep(recipe, s, t, bytes, request.ifMatch);
      NeverBad(recipe, s, t, bytes, request.ifMatch);
    }
    if PatchStep(recipe, s, request).1 != BadRequest {
      var t, bytes := TargetOf(recipe, s, request);
    }
    RefusalIsIdle(recipe, s, request);
  }

  /** What a request that is not bad patches. */
  lemma TargetOf(recipe: Recipe, s: Snapshot, request: PatchRequest) returns (t: TargetPath, bytes: seq<byte>)
    requires PatchStep(recipe, s, request).1 != BadRequest
    ensures ValidSelector(t.selector) && request == PatchOf(recipe.sids, t, bytes, request.ifMatch)
  {
    var instance := request.instances[0];
    t, bytes := ParseTargetPath(instance.path, recipe.sids).value, instance.value.value;
    ParseAcceptsCanonical(instance.path, recipe.sids, t);
    assert request.instances == [instance];
  }

  lemma RefusalIsIdle(recipe: Recipe, s: Snapshot, request: PatchRequest)
    ensures PatchStep(recipe, s, request).1 != Changed ==> PatchStep(recipe, s, request).0 == s
  {
  }

  lemma NeverBad(recipe: Recipe, s: Snapshot, t: TargetPath, bytes: seq<byte>, tag: Option<nat>)
    ensures TargetStep(recipe, s, t, bytes, tag).1 != BadRequest
  {
  }

  /** The step of a replacement whose checks pass on an ordinary rule. */
  lemma OrdinaryStep(recipe: Recipe, s: Snapshot, t: TargetPath, bytes: seq<byte>, next: Tree)
    requires Loadable(recipe, s.tree) && next == PatchTree(s.tree, t, bytes)
    requires !IsManagement(s.tree.rules, t.selector) && PatchChecks(s.tree, t, bytes, false) == Changed
    ensures TargetStep(recipe, s, t, bytes, None)
            == if recipe.loads(next) then (Snapshot(next, s.generation + 1), Changed) else (s, Conflict)
  {
    PatchedAdmissible(recipe, s.tree, t, bytes);
  }

  lemma TagDecidesFirst(recipe: Recipe, s: Snapshot, t: TargetPath, bytes: seq<byte>, tag: nat)
    ensures TargetStep(recipe, s, t, bytes, Some(tag))
            == if tag != recipe.TagOf(s.tree) then (s, PreconditionFailed) else TargetStep(recipe, s, t, bytes, None)
  {
  }

  lemma RefusedStep(recipe: Recipe, s: Snapshot, t: TargetPath, bytes: seq<byte>)
    requires PatchChecks(s.tree, t, bytes, IsManagement(s.tree.rules, t.selector)) != Changed
    ensures TargetStep(recipe, s, t, bytes, None) == (s, Conflict)
  {
  }

  /** A targeted replacement is answered 2.04 exactly when its tag agrees, its own checks pass and the other
      packages accept the context. */
  lemma PatchApplies(recipe: Recipe, s: Snapshot, t: TargetPath, bytes: seq<byte>, tag: Option<nat>)
    requires Loadable(recipe, s.tree)
    ensures var candidate := PatchTree(s.tree, t, bytes);
            TargetStep(recipe, s, t, bytes, tag)
            == if tag.Some? && tag.value != recipe.TagOf(s.tree) then (s, PreconditionFailed)
               else if PatchChecks(s.tree, t, bytes, IsManagement(s.tree.rules, t.selector)) == Changed
                       && recipe.loads(candidate)
               then (Snapshot(candidate, s.generation + 1), Changed)
               else (s, Conflict)
  {
    if tag.Some? {
      TagDecidesFirst(recipe, s, t, bytes, tag.value);
    }
    if PatchChecks(s.tree, t, bytes, IsManagement(s.tree.rules, t.selector)) == Changed {
      OrdinaryStep(recipe, s, t, bytes, PatchTree(s.tree, t, bytes));
    } else {
      RefusedStep(recipe, s, t, bytes);
    }
  }

  // ---------- repetitions ----------

  /** A repetition under If-Match, however late and whatever was published in between, is refused exactly when
      the tag is not that of the context the first one changed. */
  lemma RepeatedUnderIfMatch(recipe: Recipe, s: Snapshot, request: PatchRequest, later: Snapshot)
    requires request.ifMatch.Some? && PatchStep(recipe, s, request).1 == Changed
    ensures PatchStep(recipe, later, request) == (later, PreconditionFailed) <==>
            recipe.TagOf(later.tree) != recipe.TagOf(s.tree)
  {
  }

  function EntrySlot(e: Entry, t: TargetPath): Option<(seq<byte>, FieldLength)> {
    var current := TargetAt(e.target, t.index);
    if current.None? then None else Some((current.value, e.length))
  }

  function RuleSlot(rule: Rule, t: TargetPath): Option<(seq<byte>, FieldLength)> {
    var entry := FindEntry(rule.entries, t.entry);
    if entry.None? then None else EntrySlot(entry.value, t)
  }

  /** The current bytes and the field length of a target. */
  function Slot(tree: Tree, t: TargetPath): Option<(seq<byte>, FieldLength)> {
    var rule := FindRule(tree.rules, t.selector);
    if rule.None? then None else RuleSlot(rule.value, t)
  }

  /** The checks on an unprotected rule are about the slot alone: its width and field length. Any other answer is a
      conflict. */
  lemma ChecksMeaning(tree: Tree, t: TargetPath, bytes: seq<byte>)
    ensures PatchChecks(tree, t, bytes, true) == Conflict
    ensures PatchChecks(tree, t, bytes, false) == Changed || PatchChecks(tree, t, bytes, false) == Conflict
    ensures PatchChecks(tree, t, bytes, false) == Changed <==>
            && Slot(tree, t).Some? && Slot(tree, t).value.1.FixedBits?
            && |bytes| == |Slot(tree, t).value.0|
            && BinaryFits(Slot(tree, t).value.0, Slot(tree, t).value.1.bits)
            && BinaryFits(bytes, Slot(tree, t).value.1.bits)
  {
  }

  lemma {:induction false} FindPatchedRule(before: seq<Rule>, after: seq<Rule>, t: TargetPath, bytes: seq<byte>)
    requires |after| == |before| && forall i :: 0 <= i < |before| ==> after[i] == PatchRule(before[i], t, bytes)
    ensures FindRule(after, t.selector) ==
            if FindRule(before, t.selector).None? then None
            else Some(PatchRule(FindRule(before, t.selector).value, t, bytes))
  {
    if before != [] && before[0].id != t.selector {
      FindPatchedRule(before[1..], after[1..], t, bytes);
    }
  }

  lemma {:induction false} FindPatchedEntry(before: seq<Entry>, after: seq<Entry>, t: TargetPath, bytes: seq<byte>)
    requires |after| == |before| && forall i :: 0 <= i < |before| ==> after[i] == PatchEntryAt(before[i], t, bytes)
    ensures FindEntry(after, t.entry) ==
            if FindEntry(before, t.entry).None? then None
            else Some(PatchEntryAt(FindEntry(before, t.entry).value, t, bytes))
  {
    if before != [] && before[0].index != t.entry {
      FindPatchedEntry(before[1..], after[1..], t, bytes);
    }
  }

  lemma RuleSlotPatched(rule: Rule, t: TargetPath, bytes: seq<byte>)
    requires rule.id == t.selector && RuleSlot(rule, t).Some?
    ensures RuleSlot(PatchRule(rule, t, bytes), t) == Some((bytes, RuleSlot(rule, t).value.1))
  {
    FindPatchedEntry(rule.entries, PatchRule(rule, t, bytes).entries, t, bytes);
  }

  /** After a patch the slot holds the written bytes. */
  lemma SlotPatched(tree: Tree, t: TargetPath, bytes: seq<byte>)
    requires Slot(tree, t).Some?
    ensures Slot(PatchTree(tree, t, bytes), t) == Some((bytes, Slot(tree, t).value.1))
  {
    FindPatchedRule(tree.rules, PatchTree(tree, t, bytes).rules, t, bytes);
    RuleSlotPatched(FindRule(tree.rules, t.selector).value, t, bytes);
  }

  /** And nothing else has changed: every other slot, and everything about rules and entries but their targets. */
  lemma PatchFrame(tree: Tree, t: TargetPath, bytes: seq<byte>)
    ensures var after := PatchTree(tree, t, bytes);
            && after.guardPeriod == tree.guardPeriod && |after.rules| == |tree.rules|
            && (forall i :: 0 <= i < |tree.rules| ==> SameButTargets(tree.rules[i], after.rules[i], t))
  {
    var after := PatchTree(tree, t, bytes);
    forall i | 0 <= i < |tree.rules| ensures SameButTargets(tree.rules[i], after.rules[i], t) {
      forall k | 0 <= k < |tree.rules[i].entries|
        ensures EntrySameButTarget(tree.rules[i].entries[k], after.rules[i].entries[k], tree.rules[i].id, t)
      {
        OtherIndices(tree.rules[i].entries[k].target, t.index, bytes);
      }
    }
  }

  ghost predicate SameButTargets(before: Rule, after: Rule, t: TargetPath) {
    && after.id == before.id && after.nature == before.nature && |after.entries| == |before.entries|
    && forall k :: 0 <= k < |before.entries| ==>
         EntrySameButTarget(before.entries[k], after.entries[k], before.id, t)
  }

  ghost predicate EntrySameButTarget(before: Entry, after: Entry, id: RuleId, t: TargetPath) {
    && after == before.(target := after.target)
    && forall n: nat :: id != t.selector || before.index != t.entry || n != t.index ==>
         TargetAt(after.target, n) == TargetAt(before.target, n)
  }

  lemma OtherIndices(target: TargetValue, index: nat, bytes: seq<byte>)
    ensures forall n: nat :: n != index ==> TargetAt(SetTargetAt(target, index, bytes), n) == TargetAt(target, n)
  {
  }

  lemma SetTwice(target: TargetValue, index: nat, first: seq<byte>, second: seq<byte>)
    ensures SetTargetAt(SetTargetAt(target, index, first), index, second) == SetTargetAt(target, index, second)
  {
    if target.Mapping? && index < |target.list| {
      assert target.list[index := first][index := second] == target.list[index := second];
    }
  }

  lemma PatchRuleTwice(rule: Rule, t: TargetPath, first: seq<byte>, second: seq<byte>)
    ensures PatchRule(PatchRule(rule, t, first), t, second) == PatchRule(rule, t, second)
  {
    if rule.id == t.selector {
      var twice, once := PatchRule(PatchRule(rule, t, first), t, second).entries, PatchRule(rule, t, second).entries;
      forall i | 0 <= i < |rule.entries| ensures twice[i] == once[i] {
        SetTwice(rule.entries[i].target, t.index, first, second);
      }
      assert twice == once;
    }
  }

  /** The last patch of a target decides. */
  lemma PatchTwice(tree: Tree, t: TargetPath, first: seq<byte>, second: seq<byte>)
    ensures PatchTree(PatchTree(tree, t, first), t, second) == PatchTree(tree, t, second)
  {
    var twice, once := PatchTree(PatchTree(tree, t, first), t, second).rules, PatchTree(tree, t, second).rules;
    forall i | 0 <= i < |tree.rules| ensures twice[i] == once[i] {
      PatchRuleTwice(tree.rules[i], t, first, second);
    }
    assert twice == once;
  }

  lemma StillOrdinary(tree: Tree, t: TargetPath, bytes: seq<byte>)
    ensures IsManagement(PatchTree(tree, t, bytes).rules, t.selector) ==> IsManagement(tree.rules, t.selector)
  {
    var patched := PatchTree(tree, t, bytes);
    if IsManagement(patched.rules, t.selector) {
      var r :| r in patched.rules && r.nature == Management && r.id == t.selector;
      var i :| 0 <= i < |patched.rules| && patched.rules[i] == r;
      assert tree.rules[i] in tree.rules;
    }
  }

  /** Both values fit the slot, so either can replace the other. */
  lemma ChecksAgain(tree: Tree, t: TargetPath, first: seq<byte>, second: seq<byte>)
    requires PatchChecks(tree, t, first, false) == Changed
    requires PatchChecks(PatchTree(tree, t, first), t, second, false) == Changed
    ensures PatchChecks(PatchTree(PatchTree(tree, t, first), t, second), t, first, false) == Changed
  {
    var one := PatchTree(tree, t, first);
    ChecksMeaning(tree, t, first);
    ChecksMeaning(one, t, second);
    SlotPatched(tree, t, first);
    SlotPatched(one, t, second);
    ChecksMeaning(PatchTree(one, t, second), t, first);
  }

  lemma ChangedMeans(recipe: Recipe, s: Snapshot, t: TargetPath, bytes: seq<byte>)
    requires TargetStep(recipe, s, t, bytes, None).1 == Changed
    ensures TargetStep(recipe, s, t, bytes, None).0 == Snapshot(PatchTree(s.tree, t, bytes), s.generation + 1)
    ensures !IsManagement(s.tree.rules, t.selector) && PatchChecks(s.tree, t, bytes, false) == Changed
    ensures Loadable(recipe, PatchTree(s.tree, t, bytes))
  {
  }

  /** Going back to the first value: the tree, and the checks on the way. */
  lemma BackToFirst(tree: Tree, t: TargetPath, first: seq<byte>, second: seq<byte>, one: Tree, two: Tree)
    requires one == PatchTree(tree, t, first) && two == PatchTree(one, t, second)
    requires PatchChecks(tree, t, first, false) == Changed && PatchChecks(one, t, second, false) == Changed
    ensures PatchTree(two, t, first) == one && PatchChecks(two, t, first, false) == Changed
  {
    PatchTwice(one, t, second, first);
    PatchTwice(tree, t, first, first);
    ChecksAgain(tree, t, first, second);
  }

  /** Without If-Match a late repetition is answered 2.04 and puts the old value back: what was written to the
      target in between is lost. */
  lemma RepeatedPatchUndoes(recipe: Recipe, s: Snapshot, t: TargetPath, first: seq<byte>, second: seq<byte>)
    requires TargetStep(recipe, s, t, first, None).1 == Changed
    requires TargetStep(recipe, TargetStep(recipe, s, t, first, None).0, t, second, None).1 == Changed
    ensures var one := TargetStep(recipe, s, t, first, None).0;
            var two := TargetStep(recipe, one, t, second, None).0;
            TargetStep(recipe, two, t, first, None) == (Snapshot(one.tree, two.generation + 1), Changed)
  {
    var one := TargetStep(recipe, s, t, first, None).0;
    ChangedMeans(recipe, s, t, first);
    ChangedMeans(recipe, one, t, second);
    assert TargetStep(recipe, one, t, second, None).0 == Snapshot(PatchTree(one.tree, t, second), one.generation + 1);
    PutBack(recipe, s, one, Snapshot(PatchTree(one.tree, t, second), one.generation + 1), t, first, second);
  }

  lemma PutBack(recipe: Recipe, s: Snapshot, one: Snapshot, two: Snapshot, t: TargetPath, first: seq<byte>,
                second: seq<byte>)
    requires one.tree == PatchTree(s.tree, t, first) && two.tree == PatchTree(one.tree, t, second)
    requires PatchChecks(s.tree, t, first, false) == Changed && PatchChecks(one.tree, t, second, false) == Changed
    requires !IsManagement(one.tree.rules, t.selector)
    requires Loadable(recipe, one.tree) && Loadable(recipe, two.tree)
    ensures TargetStep(recipe, two, t, first, None) == (Snapshot(one.tree, two.generation + 1), Changed)
  {
    BackToFirst(s.tree, t, first, second, one.tree, two.tree);
    StillOrdinary(one.tree, t, second);
    OrdinaryStep(recipe, two, t, first, one.tree);
  }

  // ---------- when a repetition without If-Match does no harm ----------

  lemma SetSame(target: TargetValue, index: nat, bytes: seq<byte>)
    requires TargetAt(target, index).Some?
    ensures SetTargetAt(target, index, bytes) == target <==> TargetAt(target, index).value == bytes
    ensures TargetAt(SetTargetAt(target, index, bytes), index) == Some(bytes)
  {
    if target.Mapping? {
      assert target.list[index := target.list[index]] == target.list;
    }
  }

  lemma PatchedRuleSame(rule: Rule, t: TargetPath, bytes: seq<byte>)
    requires CanonicalEntries(rule.entries) && rule.id == t.selector && RuleSlot(rule, t).Some?
    requires RuleSlot(rule, t).value.0 == bytes
    ensures PatchRule(rule, t, bytes) == rule
  {
    var after := PatchRule(rule, t, bytes).entries;
    forall i | 0 <= i < |rule.entries| ensures after[i] == rule.entries[i] {
      if rule.entries[i].index == t.entry {
        FindUniqueEntry(rule.entries, i);
        SetSame(rule.entries[i].target, t.index, bytes);
      }
    }
    assert after == rule.entries;
  }

  /** A patch leaves a context as it is exactly when the target has the written bytes already. */
  lemma PatchedSame(tree: Tree, t: TargetPath, bytes: seq<byte>)
    requires Canonical(tree) && UniqueIds(tree.rules) && Slot(tree, t).Some?
    ensures PatchTree(tree, t, bytes) == tree <==> Slot(tree, t).value.0 == bytes
  {
    SlotPatched(tree, t, bytes);
    if Slot(tree, t).value.0 == bytes {
      var after := PatchTree(tree, t, bytes).rules;
      forall i | 0 <= i < |tree.rules| ensures after[i] == tree.rules[i] {
        if tree.rules[i].id == t.selector {
          FindUnique(tree.rules, tree.rules[i]);
          PatchedRuleSame(tree.rules[i], t, bytes);
        }
      }
      assert after == tree.rules;
    }
  }

  /** A repetition without If-Match leaves the tree alone exactly when it is not answered 2.04 or the target still
      has, or has again, the bytes it carries. */
  lemma RepetitionHarmless(recipe: Recipe, later: Snapshot, t: TargetPath, bytes: seq<byte>)
    requires Loadable(recipe, later.tree)
    ensures var (after, code) := TargetStep(recipe, later, t, bytes, None);
            after.tree == later.tree <==>
            (code == Changed ==> Slot(later.tree, t).Some? && Slot(later.tree, t).value.0 == bytes)
  {
    PatchApplies(recipe, later, t, bytes, None);
    if TargetStep(recipe, later, t, bytes, None).1 == Changed {
      ChangedMeans(recipe, later, t, bytes);
      ChecksMeaning(later.tree, t, bytes);
      LoadableUnique(recipe, later.tree);
      PatchedSame(later.tree, t, bytes);
    }
  }
}
