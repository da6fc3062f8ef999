/**
 The duplicate-rule operation: decoding its override groups, and the context it asks for.
 */
module Duplicate {
  import opened Bits
  import opened Wrappers
  import opened Sorting
  import opened RuleIds
  import opened RuleModel
  import opened Policy
  import opened Paths
  import opened Overrides

  /** One member of an override group: a path and the value to write, or a deletion. */
  datatype Instance = Instance(path: Path, value: Option<LeafValue>)

  /** An instance with what its path was read as. */
  datatype Parsed = Parsed(path: Path, key: Option<(u64, Leaf)>, value: Option<LeafValue>)

  function Parse(i: Instance, destination: RuleId, sids: ModelSids): Parsed {
    Parsed(i.path, LeafOf(i.path, destination, sids), i.value)
  }

  function ParseAll(list: seq<Instance>, destination: RuleId, sids: ModelSids): (r: seq<Parsed>)
    ensures |r| == |list|
    ensures forall i :: 0 <= i < |list| ==> r[i] == Parse(list[i], destination, sids)
  {
    seq(|list|, i requires 0 <= i < |list| => Parse(list[i], destination, sids))
  }

  function ParseGroups(groups: seq<seq<Instance>>, destination: RuleId, sids: ModelSids): (r: seq<seq<Parsed>>)
    ensures |r| == |groups|
    ensures forall i :: 0 <= i < |groups| ==> r[i] == ParseAll(groups[i], destination, sids)
  {
    seq(|groups|, i requires 0 <= i < |groups| => ParseAll(groups[i], destination, sids))
  }

  function Flatten<T>(groups: seq<seq<T>>): seq<T> {
    if groups == [] then [] else Flatten(groups[..|groups| - 1]) + groups[|groups| - 1]
  }

  lemma {:induction false} ParseFlatten(groups: seq<seq<Instance>>, destination: RuleId, sids: ModelSids)
    ensures ParseAll(Flatten(groups), destination, sids) == Flatten(ParseGroups(groups, destination, sids))
  {
    if groups != [] {
      var n := |groups| - 1;
      ParseFlatten(groups[..n], destination, sids);
      assert ParseGroups(groups, destination, sids)[..n] == ParseGroups(groups[..n], destination, sids);
    }
  }

  // ---------- decoding ----------

  ghost predicate Keyed(list: seq<Parsed>) {
    forall i :: 0 <= i < |list| ==> list[i].key.Some?
  }

  ghost predicate Distinct(list: seq<Parsed>) {
    Keyed(list) && forall i, j :: 0 <= i < j < |list| ==> list[i].key != list[j].key
  }

  ghost predicate DistinctPaths(list: seq<Parsed>) {
    forall i, j :: 0 <= i < j < |list| ==> list[i].path != list[j].path
  }

  /** The list has an instance for some leaf of `entry`. */
  ghost predicate Touches(list: seq<Parsed>, entry: u64) {
    exists i :: 0 <= i < |list| && list[i].key.Some? && list[i].key.value.0 == entry
  }

  ghost predicate SeenLeaf(list: seq<Parsed>, key: (u64, Leaf)) {
    exists j :: 0 <= j < |list| && list[j].key == Some(key)
  }

  ghost predicate GroupOk(g: seq<Parsed>) {
    1 <= |g| <= 3 && DistinctPaths(g) && Distinct(g)
  }

  ghost predicate Apart(a: seq<Parsed>, b: seq<Parsed>) {
    forall entry :: !(Touches(a, entry) && Touches(b, entry))
  }

  /** One to three leaves a group, no leaf twice in it, and no entry in two groups. */
  ghost predicate GroupsOk(groups: seq<seq<Parsed>>) {
    && (forall a :: 0 <= a < |groups| ==> GroupOk(groups[a]))
    && (forall a, b :: 0 <= a < b < |groups| ==> Apart(groups[a], groups[b]))
  }

  lemma SeenAppend(list: seq<Parsed>, x: Parsed)
    ensures forall k :: SeenLeaf(list + [x], k) <==> SeenLeaf(list, k) || x.key == Some(k)
    ensures forall entry :: Touches(list + [x], entry) <==>
              Touches(list, entry) || (x.key.Some? && x.key.value.0 == entry)
  {
    var all := list + [x];
    assert all[|list|] == x;
    assert forall j :: 0 <= j < |list| ==> all[j] == list[j];
  }

  /** The seen-set after one more instance. */
  lemma SeenGrows(list: seq<Parsed>, i: nat, seen: set<(u64, Leaf)>)
    requires i < |list| && list[i].key.Some?
    requires forall k :: k in seen <==> SeenLeaf(list[..i], k)
    ensures forall k :: k in seen + {list[i].key.value} <==> SeenLeaf(list[..i + 1], k)
  {
    assert list[..i + 1] == list[..i] + [list[i]];
    SeenAppend(list[..i], list[i]);
  }

  lemma EntriesGrow(list: seq<Parsed>, i: nat, entries: set<u64>)
    requires i < |list| && list[i].key.Some?
    requires forall entry :: entry in entries <==> Touches(list[..i], entry)
    ensures forall entry :: entry in entries + {list[i].key.value.0} <==> Touches(list[..i + 1], entry)
  {
    assert list[..i + 1] == list[..i] + [list[i]];
    SeenAppend(list[..i], list[i]);
  }

  /** Checks the size and paths of one group, then its leaves. */
  method DecodeGroup(g: seq<Instance>, destination: RuleId, sids: ModelSids) returns (r: Option<set<u64>>)
    ensures r.Some? <==> GroupOk(ParseAll(g, destination, sids))
    ensures r.Some? ==> forall entry :: entry in r.value <==> Touches(ParseAll(g, destination, sids), entry)
  {
    if |g| == 0 || |g| > 3 {
      return None;
    }
    if exists i, j :: 0 <= i < j < |g| && g[i].path == g[j].path {
      ghost var i, j :| 0 <= i < j < |g| && g[i].path == g[j].path;
      ghost var parsed := ParseAll(g, destination, sids);
      assert parsed[i].path == parsed[j].path;
      return None;
    }
    r := CollectEntries(g, destination, sids);
  }

  /** Reads every leaf, refusing one seen before, and collects the entries. */
  method CollectEntries(g: seq<Instance>, destination: RuleId, sids: ModelSids) returns (r: Option<set<u64>>)
    ensures r.Some? <==> Distinct(ParseAll(g, destination, sids))
    ensures r.Some? ==> forall entry :: entry in r.value <==> Touches(ParseAll(g, destination, sids), entry)
  {
    ghost var parsed := ParseAll(g, destination, sids);
    var seen: set<(u64, Leaf)>, entries: set<u64> := {}, {};
    var i := 0;
    while i < |g|
      invariant 0 <= i <= |g|
      invariant Distinct(parsed[..i])
      invariant forall k :: k in seen <==> SeenLeaf(parsed[..i], k)
      invariant forall entry :: entry in entries <==> Touches(parsed[..i], entry)
    {
      var leaf, _ := ReadWrite(g[i], destination, sids);
      if leaf.None? || leaf.value in seen {
        RepeatedLeaf(parsed, i);
        return None;
      }
      SeenGrows(parsed, i, seen);
      EntriesGrow(parsed, i, entries);
      DistinctGrows(parsed, i);
      seen, entries := seen + {leaf.value}, entries + {leaf.value.0};
      i := i + 1;
    }
    assert parsed[..i] == parsed;
    return Some(entries);
  }

  lemma DistinctGrows(list: seq<Parsed>, i: nat)
    requires i < |list| && Distinct(list[..i]) && list[i].key.Some? && !SeenLeaf(list[..i], list[i].key.value)
    ensures Distinct(list[..i + 1])
  {
    var init, next := list[..i], list[..i + 1];
    assert next == init + [list[i]];
    forall a, b | 0 <= a < b < |next| ensures next[a].key != next[b].key {
      assert init[a] == next[a];
      assert b < i ==> init[b] == next[b];
    }
  }

  lemma RepeatedLeaf(list: seq<Parsed>, i: nat)
    requires i < |list| && (list[i].key.None? || SeenLeaf(list[..i], list[i].key.value))
    ensures !Distinct(list)
  {
    if list[i].key.Some? {
      var j :| 0 <= j < i && list[..i][j].key == list[i].key;
      assert list[j].key == list[i].key;
    }
  }

  /** Reads the groups in order, refusing a group whose entry an earlier group used. */
  method DecodeInner(groups: seq<seq<Instance>>, destination: RuleId, sids: ModelSids)
    returns (r: Option<seq<Instance>>)
    ensures r.Some? <==> GroupsOk(ParseGroups(groups, destination, sids))
    ensures r.Some? ==> r.value == Flatten(groups)
  {
    ghost var parsed := ParseGroups(groups, destination, sids);
    var instances: seq<Instance> := [];
    var used: set<u64> := {};
    var a := 0;
    while a < |groups|
      invariant 0 <= a <= |groups|
      invariant GroupsOk(parsed[..a])
      invariant instances == Flatten(groups[..a])
      invariant UsedBy(parsed, a, used)
    {
      var decoded := DecodeGroup(groups[a], destination, sids);
      if decoded.None? {
        return None;
      }
      if decoded.value * used != {} {
        SharedEntry(parsed, a, decoded.value, used);
        return None;
      }
      GroupAppend(parsed, a, decoded.value, used);
      instances := instances + groups[a];
      used := used + decoded.value;
      assert groups[..a + 1][..a] == groups[..a];
      a := a + 1;
    }
    assert groups[..a] == groups && parsed[..a] == parsed;
    return Some(instances);
  }

  ghost predicate UsedBy(parsed: seq<seq<Parsed>>, a: nat, used: set<u64>)
    requires a <= |parsed|
  {
    forall entry :: entry in used <==> exists b :: 0 <= b < a && Touches(parsed[b], entry)
  }

  lemma SharedEntry(parsed: seq<seq<Parsed>>, a: nat, entries: set<u64>, used: set<u64>)
    requires a < |parsed| && UsedBy(parsed, a, used) && entries * used != {}
    requires forall entry :: entry in entries <==> Touches(parsed[a], entry)
    ensures !GroupsOk(parsed)
  {
    var entry :| entry in entries * used;
    var b :| 0 <= b < a && Touches(parsed[b], entry);
    assert !Apart(parsed[b], parsed[a]);
  }

  lemma GroupAppend(parsed: seq<seq<Parsed>>, a: nat, entries: set<u64>, used: set<u64>)
    requires a < |parsed| && GroupsOk(parsed[..a]) && GroupOk(parsed[a]) && entries * used == {}
    requires forall entry :: entry in entries <==> Touches(parsed[a], entry)
    requires UsedBy(parsed, a, used)
    ensures GroupsOk(parsed[..a + 1])
    ensures UsedBy(parsed, a + 1, used + entries)
  {
    forall b | 0 <= b < a ensures Apart(parsed[b], parsed[a]) {
      forall entry ensures !(Touches(parsed[b], entry) && Touches(parsed[a], entry)) {
        assert entry !in entries * used;
      }
    }
    var prior, next := parsed[..a], parsed[..a + 1];
    forall b, c | 0 <= b < c < |next| ensures Apart(next[b], next[c]) {
      if c < a {
        assert Apart(prior[b], prior[c]);
      }
    }
    forall b | 0 <= b < |next| ensures GroupOk(next[b]) {
      assert b < a ==> GroupOk(prior[b]);
    }
  }

  /** The accepted overrides have pairwise distinct (entry, leaf) keys across all groups. */
  lemma {:induction false} AcceptedAreDistinct(groups: seq<seq<Parsed>>)
    requires GroupsOk(groups)
    ensures Distinct(Flatten(groups))
    ensures forall i :: 0 <= i < |Flatten(groups)| ==>
              exists a :: 0 <= a < |groups| && Touches(groups[a], Flatten(groups)[i].key.value.0)
  {
    if groups != [] {
      var n := |groups| - 1;
      var init, last := Flatten(groups[..n]), groups[n];
      AcceptedAreDistinct(groups[..n]);
      forall i | 0 <= i < |init|
        ensures exists a :: 0 <= a < n && Touches(groups[a], init[i].key.value.0)
      {
        var a :| 0 <= a < n && Touches(groups[..n][a], init[i].key.value.0);
        assert groups[..n][a] == groups[a];
      }
      assert forall j :: 0 <= j < |last| ==> Touches(last, last[j].key.value.0);
      forall i, j | 0 <= i < |init| && 0 <= j < |last| ensures init[i].key != last[j].key {
        var a :| 0 <= a < n && Touches(groups[a], init[i].key.value.0);
        assert Apart(groups[a], groups[n]);
      }
    }
  }

  // ---------- applying the overrides ----------

  /** Writes the instances into the copied rule one by one; an unsupported path, a leaf seen before, a
      missing value or a missing leaf is an error. */
  ghost function OverrideRule(rule: Rule, list: seq<Parsed>): Option<Rule> {
    if list == [] then Some(rule)
    else
      var init, last := list[..|list| - 1], list[|list| - 1];
      var before := OverrideRule(rule, init);
      if before.None? || last.key.None? || SeenLeaf(init, last.key.value) || last.value.None? then None
      else ApplyWrite(before.value, Write(last.key.value.0, last.key.value.1, last.value.value))
  }

  ghost predicate AllPresent(list: seq<Parsed>) {
    forall i :: 0 <= i < |list| ==> list[i].value.Some?
  }

  ghost function WriteOf(i: Parsed): Write
    requires i.key.Some? && i.value.Some?
  {
    Write(i.key.value.0, i.key.value.1, i.value.value)
  }

  ghost function WritesOf(list: seq<Parsed>): (ws: seq<Write>)
    requires Keyed(list) && AllPresent(list)
    ensures |ws| == |list|
    ensures forall i :: 0 <= i < |list| ==> ws[i] == WriteOf(list[i])
  {
    if list == [] then [] else WritesOf(list[..|list| - 1]) + [WriteOf(list[|list| - 1])]
  }

  /** On distinct keys the second duplicate check never fires: the loop is exactly the list of writes. */
  lemma {:induction false} SecondCheckNeverFires(rule: Rule, list: seq<Parsed>)
    requires Distinct(list)
    ensures OverrideRule(rule, list) == if AllPresent(list) then ApplyWrites(rule, WritesOf(list)) else None
  {
    if list != [] {
      var init, last := list[..|list| - 1], list[|list| - 1];
      SecondCheckNeverFires(rule, init);
      assert forall j :: 0 <= j < |init| ==> init[j] == list[j];
      assert !SeenLeaf(init, last.key.value);
      assert AllPresent(list) <==> AllPresent(init) && last.value.Some?;
      if AllPresent(list) {
        var ws := WritesOf(list);
        assert ws[..|ws| - 1] == WritesOf(init);
      }
    }
  }

  lemma WritesDistinct(list: seq<Parsed>)
    requires Distinct(list) && AllPresent(list)
    ensures DistinctLeaves(WritesOf(list))
  {
    var ws := WritesOf(list);
    forall i, j | 0 <= i < j < |ws| ensures (ws[i].entry, ws[i].leaf) != (ws[j].entry, ws[j].leaf) {
      assert list[i].key != list[j].key;
    }
  }

  /** Hence the accepted overrides can be applied in any order. */
  lemma OverridesIgnoreOrder(rule: Rule, xs: seq<Parsed>, ys: seq<Parsed>)
    requires Distinct(xs) && Distinct(ys)
    requires forall i :: i in xs <==> i in ys
    ensures OverrideRule(rule, xs) == OverrideRule(rule, ys)
  {
    SecondCheckNeverFires(rule, xs);
    SecondCheckNeverFires(rule, ys);
    PresentSame(xs, ys);
    PresentSame(ys, xs);
    if AllPresent(xs) {
      WritesInto(xs, ys);
      WritesInto(ys, xs);
      WritesDistinct(xs);
      WritesDistinct(ys);
      WritesIgnoreOrder(rule, WritesOf(xs), WritesOf(ys));
    }
  }

  lemma PresentSame(xs: seq<Parsed>, ys: seq<Parsed>)
    requires forall i :: i in ys ==> i in xs
    ensures AllPresent(xs) ==> AllPresent(ys)
  {
    if AllPresent(xs) {
      forall i | 0 <= i < |ys| ensures ys[i].value.Some? {
        assert ys[i] in xs;
      }
    }
  }

  lemma WritesInto(xs: seq<Parsed>, ys: seq<Parsed>)
    requires Keyed(xs) && Keyed(ys) && AllPresent(xs) && AllPresent(ys)
    requires forall i :: i in xs ==> i in ys
    ensures forall w :: w in WritesOf(xs) ==> w in WritesOf(ys)
  {
    var ws, vs := WritesOf(xs), WritesOf(ys);
    forall w | w in ws ensures w in vs {
      var i :| 0 <= i < |ws| && ws[i] == w;
      assert xs[i] in ys;
      var j :| 0 <= j < |ys| && ys[j] == xs[i];
      assert vs[j] == w;
    }
  }

  /** Overriding leaves the identity, nature and entry order of the copy alone. */
  lemma OverrideShape(rule: Rule, list: seq<Parsed>)
    requires Distinct(list) && OverrideRule(rule, list).Some?
    ensures var r := OverrideRule(rule, list).value;
            && AllPresent(list)
            && r == rule.(entries := MapEntries(rule.entries, e => PatchEntry(e, WritesOf(list))))
            && (CanonicalEntries(rule.entries) ==> CanonicalEntries(r.entries))
  {
    SecondCheckNeverFires(rule, list);
    ApplyWritesMeaning(rule, WritesOf(list));
  }

  // ---------- the expected context ----------

  /** The rules without the one under `id`. */
  function Retain(rules: seq<Rule>, id: RuleId): (r: seq<Rule>)
    ensures forall x :: x in r <==> x in rules && x.id != id
    ensures |r| <= |rules|
    ensures (forall i :: 0 <= i < |rules| ==> rules[i].id != id) ==> r == rules
  {
    if rules == [] then []
    else
      var init, last := rules[..|rules| - 1], rules[|rules| - 1];
      assert rules == init + [last];
      if last.id == id then Retain(init, id) else Retain(init, id) + [last]
  }

  /** The rule list with `rule` in place of whatever its RuleID named, in canonical order. */
  function WithRule(rules: seq<Rule>, rule: Rule): seq<Rule> {
    SortBy(RuleKey, Retain(rules, rule.id) + [rule])
  }

  /** The rule a duplicate asks for: the source under the destination RuleID with its leaves overridden. */
  ghost function DestinationRule(rules: seq<Rule>, source: RuleId, destination: RuleId, list: seq<Parsed>): Option<Rule>
  {
    var found := FindRule(rules, source);
    if found.None? || found.value.nature == Management || IsManagement(rules, source) then None
    else if IsManagement(rules, destination) || source == destination then None
    else OverrideRule(found.value.(id := destination), list)
  }

  ghost function ExpectedTree(tree: Tree, source: RuleId, destination: RuleId, list: seq<Parsed>): Option<Tree> {
    var rule := DestinationRule(tree.rules, source, destination, list);
    if rule.None? then None else Some(Tree(WithRule(tree.rules, rule.value), tree.guardPeriod))
  }

  /** Writes one leaf of the rule under `id` in a rule list. */
  function SetInTree(rules: seq<Rule>, id: RuleId, w: Write): Option<seq<Rule>> {
    if rules == [] then None
    else if rules[0].id == id then
      var updated := ApplyWrite(rules[0], w);
      if updated.None? then None else Some([updated.value] + rules[1..])
    else
      var rest := SetInTree(rules[1..], id, w);
      if rest.None? then None else Some([rules[0]] + rest.value)
  }

  lemma {:induction false} SetInTreeAt(a: seq<Rule>, rule: Rule, b: seq<Rule>, w: Write)
    requires forall i :: 0 <= i < |a| ==> a[i].id != rule.id
    ensures var updated := ApplyWrite(rule, w);
            SetInTree(a + [rule] + b, rule.id, w) == if updated.None? then None else Some(a + [updated.value] + b)
  {
    var all := a + [rule] + b;
    if a == [] {
      assert all == [rule] + b;
      assert all[1..] == b;
      var updated := ApplyWrite(rule, w);
      if updated.Some? {
        assert [] + [updated.value] + b == [updated.value] + b;
      }
    } else {
      assert all[0] == a[0];
      assert all[1..] == a[1..] + [rule] + b;
      SetInTreeAt(a[1..], rule, b, w);
      var updated := ApplyWrite(rule, w);
      if updated.Some? {
        assert [a[0]] + (a[1..] + [updated.value] + b) == a + [updated.value] + b;
      }
    }
  }

  /** Writing a leaf in the sorted list is the same as sorting the written rule in. */
  lemma SetSorted(rules: seq<Rule>, rule: Rule, w: Write)
    ensures var updated := ApplyWrite(rule, w);
            SetInTree(WithRule(rules, rule), rule.id, w) ==
            if updated.None? then None else Some(WithRule(rules, updated.value))
  {
    var others := Retain(rules, rule.id);
    var sorted := SortBy(RuleKey, others);
    SortPermutes(RuleKey, others);
    var k := InsertPosition(RuleKey, rule, sorted);
    SortAppend(others, rule);
    forall i | 0 <= i < k ensures sorted[..k][i].id != rule.id {
      InMultiset(sorted, others, sorted[i]);
      assert sorted[i] in others;
    }
    SetInTreeAt(sorted[..k], rule, sorted[k..], w);
    var updated := ApplyWrite(rule, w);
    if updated.Some? {
      SortAppend(others, updated.value);
    }
  }

  lemma SortAppend(rules: seq<Rule>, rule: Rule)
    ensures SortBy(RuleKey, rules + [rule]) == Insert(RuleKey, rule, SortBy(RuleKey, rules))
  {
    assert (rules + [rule])[..|rules + [rule]| - 1] == rules;
  }

  /** Copies the source, replaces and sorts it into a clone of the tree, then sets each override by path. */
  method ExpectedDuplicateTree(tree: Tree, source: RuleId, destination: RuleId, list: seq<Instance>, sids: ModelSids)
    returns (r: Option<Tree>)
    ensures r == ExpectedTree(tree, source, destination, ParseAll(list, destination, sids))
  {
    var found := FindRule(tree.rules, source);
    if found.None? {
      return None;
    }
    var protected := ProtectedOf(tree.rules);
    ContainsIsManagement(tree.rules, source);
    ContainsIsManagement(tree.rules, destination);
    if found.value.nature == Management || Policy.Contains(protected, source)
       || Policy.Contains(protected, destination) || source == destination {
      return None;
    }
    var rules := SetOverrides(tree.rules, found.value.(id := destination), list, sids);
    if rules.None? {
      return None;
    }
    return Some(Tree(rules.value, tree.guardPeriod));
  }

  /** The loop over the overrides, each written by path into the clone that holds the copied rule. */
  method SetOverrides(base: seq<Rule>, copy: Rule, list: seq<Instance>, sids: ModelSids) returns (r: Option<seq<Rule>>)
    ensures var rule := OverrideRule(copy, ParseAll(list, copy.id, sids));
            r == if rule.None? then None else Some(WithRule(base, rule.value))
  {
    ghost var parsed := ParseAll(list, copy.id, sids);
    ghost var current := copy;
    var rules := WithRule(base, copy);
    var seen: set<(u64, Leaf)> := {};
    var i := 0;
    while i < |list|
      invariant 0 <= i <= |list|
      invariant OverrideRule(copy, parsed[..i]) == Some(current)
      invariant current.id == copy.id && rules == WithRule(base, current)
      invariant forall k :: k in seen <==> SeenLeaf(parsed[..i], k)
    {
      FailedPrefix(copy, parsed, i + 1);
      OverrideNext(copy, parsed, i, current);
      var key, w := ReadWrite(list[i], copy.id, sids);
      if key.None? || key.value in seen || w.None? {
        return None;
      }
      var updated := WriteInTree(base, current, rules, copy.id, w.value);
      if updated.None? {
        return None;
      }
      current := ApplyWrite(current, w.value).value;
      rules := updated.value;
      SeenGrows(parsed, i, seen);
      seen := seen + {key.value};
      i := i + 1;
    }
    assert parsed[..i] == parsed;
    return Some(rules);
  }

  /** Reads the leaf and the value of one override. */
  method ReadWrite(i: Instance, destination: RuleId, sids: ModelSids)
    returns (key: Option<(u64, Leaf)>, w: Option<Write>)
    ensures key == Parse(i, destination, sids).key
    ensures w == if key.None? || i.value.None? then None else Some(Write(key.value.0, key.value.1, i.value.value))
  {
    key := LeafFromPath(i.path, destination, sids);
    w := if key.None? || i.value.None? then None else Some(Write(key.value.0, key.value.1, i.value.value));
  }

  /** Sets one leaf in the clone. */
  method WriteInTree(ghost base: seq<Rule>, ghost current: Rule, rules: seq<Rule>, id: RuleId, w: Write)
    returns (r: Option<seq<Rule>>)
    requires rules == WithRule(base, current) && id == current.id
    ensures var updated := ApplyWrite(current, w);
            r == if updated.None? then None else Some(WithRule(base, updated.value))
  {
    SetSorted(base, current, w);
    r := SetInTree(rules, id, w);
  }

  /** One more round of the loop. */
  lemma OverrideNext(rule: Rule, list: seq<Parsed>, i: nat, current: Rule)
    requires i < |list| && OverrideRule(rule, list[..i]) == Some(current)
    ensures OverrideRule(rule, list[..i + 1]) ==
            if list[i].key.None? || SeenLeaf(list[..i], list[i].key.value) || list[i].value.None? then None
            else ApplyWrite(current, Write(list[i].key.value.0, list[i].key.value.1, list[i].value.value))
  {
    assert list[..i + 1] == list[..i] + [list[i]];
  }

  lemma {:induction false} FailedPrefix(rule: Rule, list: seq<Parsed>, n: nat)
    requires n <= |list|
    ensures OverrideRule(rule, list[..n]).None? ==> OverrideRule(rule, list).None?
    decreases |list|
  {
    if n == |list| {
      assert list[..n] == list;
    } else {
      assert list[..|list| - 1][..n] == list[..n];
      FailedPrefix(rule, list[..|list| - 1], n);
    }
  }

  // ---------- what the expected context contains ----------

  /** The only rule under the new RuleID is the new rule. */
  lemma WithRuleFinds(rules: seq<Rule>, rule: Rule)
    ensures FindRule(WithRule(rules, rule), rule.id) == Some(rule)
  {
    var others, all := Retain(rules, rule.id), WithRule(rules, rule);
    SortPermutes(RuleKey, others + [rule]);
    InMultiset(all, others + [rule], rule);
    assert rule in others + [rule];
    assert rule in all;
    var i :| 0 <= i < |all| && all[i] == rule;
    var found := FindRule(all, rule.id).value;
    InMultiset(all, others + [rule], found);
  }

  /** `after` is `before` with `rule` put in at position `k`. */
  ghost predicate InsertedRule(before: seq<Rule>, after: seq<Rule>, rule: Rule, k: nat) {
    k <= |before| && after == before[..k] + [rule] + before[k..]
  }

  /** A new RuleID is put in at one place of a canonical list and everything else keeps its place. */
  lemma WithRuleInserts(rules: seq<Rule>, rule: Rule) returns (k: nat)
    requires Sorted(RuleKey, rules) && FindRule(rules, rule.id).None?
    ensures InsertedRule(rules, WithRule(rules, rule), rule, k)
    ensures Sorted(RuleKey, WithRule(rules, rule))
  {
    assert Retain(rules, rule.id) == rules;
    SortAppend(rules, rule);
    SortedIsFixed(RuleKey, rules);
    k := InsertPosition(RuleKey, rule, rules);
    SortSorts(RuleKey, rules + [rule]);
  }

  lemma InsertedMembers(before: seq<Rule>, after: seq<Rule>, rule: Rule, k: nat)
    requires InsertedRule(before, after, rule, k)
    ensures forall x :: x in after <==> x in before || x == rule
  {
    assert before == before[..k] + before[k..];
  }

  lemma InsertedUnique(before: seq<Rule>, after: seq<Rule>, rule: Rule, k: nat)
    requires InsertedRule(before, after, rule, k) && UniqueIds(before) && FindRule(before, rule.id).None?
    ensures UniqueIds(after)
  {
    forall i, j | 0 <= i < j < |after| ensures after[i].id != after[j].id {
      assert after[i] == if i < k then before[i] else if i == k then rule else before[i - 1];
      assert after[j] == if j < k then before[j] else if j == k then rule else before[j - 1];
    }
  }

  lemma {:induction false} FindRuleAppend(a: seq<Rule>, b: seq<Rule>, id: RuleId)
    ensures FindRule(a + b, id) == if FindRule(a, id).Some? then FindRule(a, id) else FindRule(b, id)
  {
    if a == [] {
      assert a + b == b;
    } else {
      assert (a + b)[1..] == a[1..] + b;
      FindRuleAppend(a[1..], b, id);
    }
  }

  /** Inserting a rule changes what no other RuleID names. */
  lemma InsertedFinds(before: seq<Rule>, after: seq<Rule>, rule: Rule, k: nat, id: RuleId)
    requires InsertedRule(before, after, rule, k) && id != rule.id
    ensures FindRule(after, id) == FindRule(before, id)
  {
    FindRuleAppend(before[..k] + [rule], before[k..], id);
    FindRuleAppend(before[..k], [rule], id);
    FindRuleAppend(before[..k], before[k..], id);
    assert before == before[..k] + before[k..];
    assert FindRule([rule], id).None?;
  }

  /** The destination rule is the source under the new identity with the overridden leaves. */
  lemma DestinationShape(rules: seq<Rule>, source: RuleId, destination: RuleId, list: seq<Parsed>)
    requires Distinct(list) && DestinationRule(rules, source, destination, list).Some?
    ensures FindRule(rules, source).Some? && AllPresent(list)
    ensures var original := FindRule(rules, source).value;
            var copy := DestinationRule(rules, source, destination, list).value;
            && copy == Rule(destination, original.nature,
                            MapEntries(original.entries, e => PatchEntry(e, WritesOf(list))))
            && original.nature != Management
            && (CanonicalEntries(original.entries) ==> CanonicalEntries(copy.entries))
  {
    var original := FindRule(rules, source).value;
    OverrideShape(original.(id := destination), list);
  }

  lemma CanonicalMember(tree: Tree, rule: Rule)
    requires Canonical(tree) && rule in tree.rules
    ensures CanonicalEntries(rule.entries)
  {
  }

  lemma InsertedCanonical(before: Tree, after: Tree, rule: Rule, k: nat)
    requires Canonical(before) && CanonicalEntries(rule.entries)
    requires InsertedRule(before.rules, after.rules, rule, k) && Sorted(RuleKey, after.rules)
    ensures Canonical(after)
  {
    forall i | 0 <= i < |after.rules| ensures CanonicalEntries(after.rules[i].entries) {
      assert after.rules[i] == if i < k then before.rules[i] else if i == k then rule else before.rules[i - 1];
    }
  }

  /** A duplicate to a new RuleID adds exactly the destination rule, at one place. Every other RuleID, the
      source included, names what it named, and the result is canonical whenever the context was, so
      it is never refused as non-canonical. */
  lemma DuplicateAddsOneRule(tree: Tree, source: RuleId, destination: RuleId, list: seq<Parsed>) returns (k: nat)
    requires Canonical(tree) && UniqueIds(tree.rules) && Distinct(list) && FindRule(tree.rules, destination).None?
    requires ExpectedTree(tree, source, destination, list).Some?
    ensures DestinationRule(tree.rules, source, destination, list).Some?
    ensures var next := ExpectedTree(tree, source, destination, list).value;
            var copy := DestinationRule(tree.rules, source, destination, list).value;
            && copy.id == destination && copy.nature != Management
            && InsertedRule(tree.rules, next.rules, copy, k)
            && next.guardPeriod == tree.guardPeriod
            && FindRule(next.rules, destination) == Some(copy)
            && (forall id :: id != destination ==> FindRule(next.rules, id) == FindRule(tree.rules, id))
            && Canonical(next) && UniqueIds(next.rules)
  {
    var copy := DestinationRule(tree.rules, source, destination, list).value;
    var next := Tree(WithRule(tree.rules, copy), tree.guardPeriod);
    DestinationShape(tree.rules, source, destination, list);
    CanonicalMember(tree, FindRule(tree.rules, source).value);
    WithRuleFinds(tree.rules, copy);
    k := WithRuleInserts(tree.rules, copy);
    InsertedUnique(tree.rules, next.rules, copy, k);
    InsertedCanonical(tree, next, copy, k);
    forall id | id != destination ensures FindRule(next.rules, id) == FindRule(tree.rules, id) {
      InsertedFinds(tree.rules, next.rules, copy, k, id);
    }
  }

  /** Inserting an ordinary rule leaves the management rules as they were. */
  lemma InsertedKeepsProtected(before: seq<Rule>, after: seq<Rule>, rule: Rule, k: nat)
    requires rule.nature != Management && InsertedRule(before, after, rule, k)
    ensures ProtectionKept(before, after)
  {
    InsertedMembers(before, after, rule, k);
  }
}
