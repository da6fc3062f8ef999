/**
 Protection of management rules: the protected set is derived from a context and a candidate
 context is accepted only when it carries the same rules under the same RuleIDs.
 */
module Policy {
  import opened Wrappers
  import opened Sorting
  import opened RuleIds
  import opened RuleModel

  datatype ProtectedRule = ProtectedRule(id: RuleId, rule: Rule)

  // ---------- derivation ----------

  function ManagementIds(rules: seq<Rule>): seq<RuleId> {
    if rules == [] then []
    else
      var init := ManagementIds(rules[..|rules| - 1]);
      if rules[|rules| - 1].nature == Management then init + [rules[|rules| - 1].id] else init
  }

  ghost predicate IsManagement(rules: seq<Rule>, id: RuleId) {
    exists r :: r in rules && r.nature == Management && r.id == id
  }

  lemma {:induction false} ManagementIdsMeaning(rules: seq<Rule>, id: RuleId)
    ensures id in ManagementIds(rules) <==> IsManagement(rules, id)
  {
    if rules != [] {
      assert rules == rules[..|rules| - 1] + [rules[|rules| - 1]];
      ManagementIdsMeaning(rules[..|rules| - 1], id);
    }
  }

  function DedupIds(ids: seq<RuleId>): seq<RuleId> {
    if |ids| <= 1 then ids
    else
      var init := DedupIds(ids[..|ids| - 1]);
      if ids[|ids| - 2] == ids[|ids| - 1] then init else init + [ids[|ids| - 1]]
  }

  lemma {:induction false} DedupIdsMembers(ids: seq<RuleId>)
    ensures forall id :: id in DedupIds(ids) <==> id in ids
    ensures ids != [] ==> DedupIds(ids) != [] && DedupIds(ids)[|DedupIds(ids)| - 1] == ids[|ids| - 1]
  {
    if |ids| > 1 {
      assert ids == ids[..|ids| - 1] + [ids[|ids| - 1]];
      DedupIdsMembers(ids[..|ids| - 1]);
    }
  }

  ghost predicate Ascending(ids: seq<RuleId>) {
    forall i, j :: 0 <= i < j < |ids| ==> IdKey(ids[i]).AtMost(IdKey(ids[j])) && ids[i] != ids[j]
  }

  lemma {:induction false} DedupAscending(ids: seq<RuleId>)
    requires Sorted(IdKey, ids)
    ensures Ascending(DedupIds(ids))
  {
    if |ids| > 1 {
      var init, last := ids[..|ids| - 1], ids[|ids| - 1];
      DedupAscending(init);
      DedupIdsMembers(init);
      if ids[|ids| - 2] != last {
        assert IdKey(ids[|ids| - 2]).AtMost(IdKey(last));
      }
    }
  }

  function ProtectedIds(rules: seq<Rule>): seq<RuleId> {
    DedupIds(SortBy(IdKey, ManagementIds(rules)))
  }

  lemma ProtectedIdsMeaning(rules: seq<Rule>)
    ensures Ascending(ProtectedIds(rules))
    ensures forall id :: id in ProtectedIds(rules) <==> IsManagement(rules, id)
  {
    var all := ManagementIds(rules);
    var sorted := SortBy(IdKey, all);
    SortSorts(IdKey, all);
    SortPermutes(IdKey, all);
    DedupAscending(sorted);
    DedupIdsMembers(sorted);
    forall id ensures id in ProtectedIds(rules) <==> IsManagement(rules, id) {
      InMultiset(sorted, all, id);
      ManagementIdsMeaning(rules, id);
    }
  }

  lemma ManagementIsFound(rules: seq<Rule>, ids: seq<RuleId>)
    requires forall id :: id in ids <==> IsManagement(rules, id)
    ensures forall i :: 0 <= i < |ids| ==> FindRule(rules, ids[i]).Some?
  {
    forall i | 0 <= i < |ids| ensures FindRule(rules, ids[i]).Some? {
      assert ids[i] in ids;
    }
  }

  /** Each RuleID with the rule found under it. */
  function PairUp(rules: seq<Rule>, ids: seq<RuleId>): (r: seq<ProtectedRule>)
    requires forall i :: 0 <= i < |ids| ==> FindRule(rules, ids[i]).Some?
    ensures |r| == |ids|
  {
    if ids == [] then []
    else
      var n := |ids| - 1;
      PairUp(rules, ids[..n]) + [ProtectedRule(ids[n], FindRule(rules, ids[n]).value)]
  }

  lemma {:induction false} PairUpMeaning(rules: seq<Rule>, ids: seq<RuleId>)
    requires forall i :: 0 <= i < |ids| ==> FindRule(rules, ids[i]).Some?
    ensures forall i :: 0 <= i < |ids| ==>
              PairUp(rules, ids)[i].id == ids[i] && Some(PairUp(rules, ids)[i].rule) == FindRule(rules, ids[i])
  {
    if ids != [] {
      PairUpMeaning(rules, ids[..|ids| - 1]);
    }
  }

  /** The protected rules of a context: each management RuleID with the rule found under it. */
  function ProtectedOf(rules: seq<Rule>): seq<ProtectedRule> {
    var ids := ProtectedIds(rules);
    ProtectedIdsMeaning(rules);
    ManagementIsFound(rules, ids);
    PairUp(rules, ids)
  }

  /** The protected rules, place by place. */
  lemma ProtectedShape(rules: seq<Rule>)
    ensures var p, ids := ProtectedOf(rules), ProtectedIds(rules);
            |p| == |ids| && forall i :: 0 <= i < |p| ==>
              p[i].id == ids[i] && IsManagement(rules, ids[i]) && Some(p[i].rule) == FindRule(rules, ids[i])
  {
    var ids := ProtectedIds(rules);
    ProtectedIdsMeaning(rules);
    ManagementIsFound(rules, ids);
    PairUpMeaning(rules, ids);
    assert forall i :: 0 <= i < |ids| ==> ids[i] in ids;
  }

  predicate Contains(rules: seq<ProtectedRule>, id: RuleId) {
    exists i :: 0 <= i < |rules| && rules[i].id == id
  }

  /** Pushes one protected rule per RuleID. */
  method CollectRules(rules: seq<Rule>, ids: seq<RuleId>) returns (r: Option<seq<ProtectedRule>>)
    requires forall i :: 0 <= i < |ids| ==> FindRule(rules, ids[i]).Some?
    ensures r == Some(PairUp(rules, ids))
  {
    var out: seq<ProtectedRule> := [];
    var i := 0;
    while i < |ids|
      invariant 0 <= i <= |ids|
      invariant out == PairUp(rules, ids[..i])
    {
      var rule := FindRule(rules, ids[i]);
      if rule.None? {
        return None;
      }
      out := out + [ProtectedRule(ids[i], rule.value)];
      assert ids[..i + 1][..i] == ids[..i];
      i := i + 1;
    }
    assert ids[..i] == ids;
    return Some(out);
  }

  /** Filters, sorts and dedups the management RuleIDs, then finds their rules. */
  method Derive(rules: seq<Rule>) returns (r: Option<seq<ProtectedRule>>)
    ensures r == Some(ProtectedOf(rules))
  {
    var ids := ProtectedIds(rules);
    ProtectedIdsMeaning(rules);
    ManagementIsFound(rules, ids);
    r := CollectRules(rules, ids);
  }

  /** With unique RuleIDs the protected set is exactly the management rules. */
  lemma ProtectedAreManagement(rules: seq<Rule>, rule: Rule)
    requires UniqueIds(rules)
    ensures ProtectedRule(rule.id, rule) in ProtectedOf(rules) <==> rule in rules && rule.nature == Management
    ensures rule in rules ==> (Contains(ProtectedOf(rules), rule.id) <==> rule.nature == Management)
  {
    var p, ids := ProtectedOf(rules), ProtectedIds(rules);
    ProtectedShape(rules);
    ProtectedIdsMeaning(rules);
    if rule in rules {
      FindUnique(rules, rule);
      if rule.nature == Management {
        assert rule.id in ids;
        var i :| 0 <= i < |ids| && ids[i] == rule.id;
        assert p[i] == ProtectedRule(rule.id, rule);
      }
      if Contains(p, rule.id) {
        var i :| 0 <= i < |p| && p[i].id == rule.id;
        assert IsManagement(rules, ids[i]);
        var r :| r in rules && r.nature == Management && r.id == rule.id;
        UniqueRule(rules, r, rule);
      }
    }
    if ProtectedRule(rule.id, rule) in p {
      var i :| 0 <= i < |p| && p[i] == ProtectedRule(rule.id, rule);
      assert Contains(p, rule.id);
    }
  }

  // ---------- enforcement ----------

  /** A protected set is kept in RuleID order without repetition. */
  ghost predicate WellKept(rules: seq<ProtectedRule>) {
    forall i, j :: 0 <= i < j < |rules| ==>
      IdKey(rules[i].id).AtMost(IdKey(rules[j].id)) && rules[i].id != rules[j].id
  }

  lemma ProtectedWellKept(rules: seq<Rule>)
    ensures WellKept(ProtectedOf(rules))
  {
    var p, ids := ProtectedOf(rules), ProtectedIds(rules);
    ProtectedShape(rules);
    ProtectedIdsMeaning(rules);
    forall i, j | 0 <= i < j < |p| ensures IdKey(p[i].id).AtMost(IdKey(p[j].id)) && p[i].id != p[j].id {
      assert ids[i] == p[i].id && ids[j] == p[j].id;
    }
  }

  /** The first protected rule with this RuleID. */
  function Lookup(rules: seq<ProtectedRule>, id: RuleId): (r: Option<Rule>)
    ensures r.None? <==> !Contains(rules, id)
    ensures r.Some? ==> ProtectedRule(id, r.value) in rules
  {
    if rules == [] then None
    else if rules[0].id == id then Some(rules[0].rule)
    else
      assert Contains(rules[1..], id) ==> Contains(rules, id);
      Lookup(rules[1..], id)
  }

  /** Compares the counts, then finds every expected rule in the candidate. */
  method Enforce(expected: seq<ProtectedRule>, candidate: seq<ProtectedRule>) returns (ok: bool)
    requires WellKept(expected) && WellKept(candidate)
    ensures ok <==> expected == candidate
  {
    if |expected| != |candidate| {
      return false;
    }
    var i := 0;
    while i < |expected|
      invariant 0 <= i <= |expected|
      invariant forall j :: 0 <= j < i ==> expected[j] in candidate
    {
      var actual := Lookup(candidate, expected[i].id);
      if actual.None? {
        assert candidate != expected by { assert expected[i] in expected; }
        return false;
      }
      LookupFinds(candidate, expected[i]);
      if actual.value != expected[i].rule {
        assert candidate != expected by { assert expected[i] in expected; }
        return false;
      }
      i := i + 1;
    }
    EqualSets(expected, candidate);
    return true;
  }

  lemma LookupFinds(rules: seq<ProtectedRule>, rule: ProtectedRule)
    requires WellKept(rules)
    ensures rule in rules <==> Lookup(rules, rule.id) == Some(rule.rule)
  {
    if rule in rules {
      assert Contains(rules, rule.id);
      SameIdSameRule(rules, rule, ProtectedRule(rule.id, Lookup(rules, rule.id).value));
    }
  }

  lemma SameIdSameRule(rules: seq<ProtectedRule>, a: ProtectedRule, b: ProtectedRule)
    requires WellKept(rules) && a in rules && b in rules && a.id == b.id
    ensures a == b
  {
    var i :| 0 <= i < |rules| && rules[i] == a;
    var j :| 0 <= j < |rules| && rules[j] == b;
    assert i == j;
  }

  /** As many rules, each found on the other side: by counting, nothing else is there. */
  lemma {:induction false} EqualSets(expected: seq<ProtectedRule>, candidate: seq<ProtectedRule>)
    requires WellKept(expected) && WellKept(candidate) && |expected| == |candidate|
    requires forall i :: 0 <= i < |expected| ==> expected[i] in candidate
    ensures expected == candidate
  {
    if expected != [] {
      var n := |expected| - 1;
      LastIsLast(expected, candidate);
      forall i | 0 <= i < n ensures expected[..n][i] in candidate[..n] {
        assert expected[i] in candidate;
        assert expected[i].id != expected[n].id;
        var j :| 0 <= j < |candidate| && candidate[j] == expected[i];
        assert j != n;
        assert candidate[..n][j] == expected[i];
      }
      EqualSets(expected[..n], candidate[..n]);
      assert expected == expected[..n] + [expected[n]];
      assert candidate == candidate[..n] + [candidate[n]];
    }
  }

  /** The greatest expected rule has as many below it as the candidate has places. */
  lemma LastIsLast(expected: seq<ProtectedRule>, candidate: seq<ProtectedRule>)
    requires WellKept(expected) && WellKept(candidate) && |expected| == |candidate| > 0
    requires forall i :: 0 <= i < |expected| ==> expected[i] in candidate
    ensures expected[|expected| - 1] == candidate[|candidate| - 1]
  {
    var n := |expected| - 1;
    var j := PositionAtLeast(expected, candidate, n);
  }

  /** The i-th expected rule stands at position i or later. */
  lemma {:induction false} PositionAtLeast(expected: seq<ProtectedRule>, candidate: seq<ProtectedRule>, i: nat)
    returns (j: nat)
    requires WellKept(expected) && WellKept(candidate) && i < |expected|
    requires forall k :: 0 <= k < |expected| ==> expected[k] in candidate
    ensures i <= j < |candidate| && candidate[j] == expected[i]
  {
    assert expected[i] in candidate;
    j :| 0 <= j < |candidate| && candidate[j] == expected[i];
    if i > 0 {
      var k := PositionAtLeast(expected, candidate, i - 1);
      assert IdKey(expected[i - 1].id).AtMost(IdKey(expected[i].id)) && expected[i - 1].id != expected[i].id;
      assert j != k;
    }
  }

  /** Enforcement compares two contexts by their maps from RuleID to protected rule. */
  function AsMap(rules: seq<ProtectedRule>): (m: map<RuleId, Rule>) {
    map p | p in rules :: p.id := Lookup(rules, p.id).value
  }

  lemma EqualMapsEqualLists(a: seq<ProtectedRule>, b: seq<ProtectedRule>)
    requires WellKept(a) && WellKept(b)
    ensures AsMap(a) == AsMap(b) <==> a == b
  {
    if AsMap(a) == AsMap(b) {
      MapInto(a, b);
      MapInto(b, a);
      NoLonger(a, b);
      NoLonger(b, a);
      EqualSets(a, b);
    }
  }

  lemma MapInto(a: seq<ProtectedRule>, b: seq<ProtectedRule>)
    requires WellKept(a) && WellKept(b) && AsMap(a) == AsMap(b)
    ensures forall i :: 0 <= i < |a| ==> a[i] in b
  {
    forall i | 0 <= i < |a| ensures a[i] in b {
      assert a[i].id in AsMap(a);
      SameIdSameRule(a, a[i], ProtectedRule(a[i].id, Lookup(a, a[i].id).value));
      assert a[i].id in AsMap(b);
    }
  }

  lemma NoLonger(a: seq<ProtectedRule>, b: seq<ProtectedRule>)
    requires WellKept(a) && WellKept(b)
    requires forall i :: 0 <= i < |a| ==> a[i] in b
    ensures |a| <= |b|
  {
    if a != [] {
      var j := PositionAtLeast(a, b, |a| - 1);
    }
  }

  // ---------- what protection means ----------

  /** The same management rules on both sides. */
  ghost predicate ProtectionKept(current: seq<Rule>, candidate: seq<Rule>) {
    forall r: Rule :: r.nature == Management ==> (r in current <==> r in candidate)
  }

  lemma ContainsIsManagement(rules: seq<Rule>, id: RuleId)
    ensures Contains(ProtectedOf(rules), id) <==> IsManagement(rules, id)
  {
    var p, ids := ProtectedOf(rules), ProtectedIds(rules);
    ProtectedShape(rules);
    ProtectedIdsMeaning(rules);
    if IsManagement(rules, id) {
      var i :| 0 <= i < |ids| && ids[i] == id;
      assert p[i].id == id;
    }
  }

  /** Two contexts protect the same rules exactly when they contain the same management rules. */
  lemma SameProtected(xs: seq<Rule>, ys: seq<Rule>)
    requires UniqueIds(xs) && UniqueIds(ys)
    ensures ProtectedOf(xs) == ProtectedOf(ys) <==> ProtectionKept(xs, ys)
  {
    var a, b := ProtectedOf(xs), ProtectedOf(ys);
    if a == b {
      forall r: Rule | r.nature == Management ensures r in xs <==> r in ys {
        ProtectedAreManagement(xs, r);
        ProtectedAreManagement(ys, r);
      }
    }
    if ProtectionKept(xs, ys) {
      ProtectedWellKept(xs);
      ProtectedWellKept(ys);
      ProtectedCarriedOver(xs, ys);
      ProtectedCarriedOver(ys, xs);
      NoLonger(a, b);
      NoLonger(b, a);
      EqualSets(a, b);
    }
  }

  lemma ProtectedCarriedOver(xs: seq<Rule>, ys: seq<Rule>)
    requires UniqueIds(xs) && UniqueIds(ys) && ProtectionKept(xs, ys)
    ensures forall i :: 0 <= i < |ProtectedOf(xs)| ==> ProtectedOf(xs)[i] in ProtectedOf(ys)
  {
    var a := ProtectedOf(xs);
    ProtectedShape(xs);
    forall i | 0 <= i < |a| ensures a[i] in ProtectedOf(ys) {
      assert IsManagement(xs, a[i].id);
      var r :| r in xs && r.nature == Management && r.id == a[i].id;
      FindUnique(xs, r);
      assert a[i] == ProtectedRule(r.id, r);
      ProtectedAreManagement(ys, r);
    }
  }
}
