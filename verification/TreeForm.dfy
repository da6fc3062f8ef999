/**
 The bridge between the two views of a context: the rule list the writers work on and the datastore
 tree that is normalised, compared and encoded. A context is canonical exactly when normalising its
 tree changes nothing, which is the check every candidate tree has to pass.
 */
module TreeForm {
  import opened Bits
  import opened Wrappers
  import opened Sorting
  import opened RuleIds
  import opened RuleModel
  import opened Codec
  import Duplicate

  const ROOT := "ietf-schc:schc"

  /** The members a tree has besides the RuleIDs, indices and lists: field descriptions, target values,
      natures and timers. None of them holds a rule or entry list, so normalisation leaves them alone. */
  datatype Remainder = Remainder(ofEntry: Entry -> seq<Member>, ofRule: Rule -> seq<Member>,
                                 ofTree: Tree -> seq<Member>) {
    ghost predicate Plain() {
      && (forall e :: Fixed(ofEntry(e)))
      && (forall r :: Fixed(ofRule(r)))
      && (forall t :: Fixed(ofTree(t)))
    }
  }

  ghost predicate Fixed(members: seq<Member>) {
    forall i :: 0 <= i < |members| ==> Normalize(members[i].value, Some(members[i].key)) == Some(members[i].value)
  }

  ghost predicate FixedList(items: seq<Json>) {
    forall i :: 0 <= i < |items| ==> Normalize(items[i], None) == Some(items[i])
  }

  function EntryJson(e: Entry, rest: Remainder): Json {
    Object([Member(INDEX, Number(e.index))] + rest.ofEntry(e))
  }

  function EntryList(entries: seq<Entry>, rest: Remainder): (r: seq<Json>)
    ensures |r| == |entries| && forall i :: 0 <= i < |entries| ==> r[i] == EntryJson(entries[i], rest)
  {
    seq(|entries|, i requires 0 <= i < |entries| => EntryJson(entries[i], rest))
  }

  function RuleJson(r: Rule, rest: Remainder): Json {
    Object([Member(ID_LENGTH, Number(r.id.length)), Member(ID_VALUE, Number(r.id.value)),
            Member(ENTRIES, Array(EntryList(r.entries, rest)))] + rest.ofRule(r))
  }

  function RuleList(rules: seq<Rule>, rest: Remainder): (r: seq<Json>)
    ensures |r| == |rules| && forall i :: 0 <= i < |rules| ==> r[i] == RuleJson(rules[i], rest)
  {
    seq(|rules|, i requires 0 <= i < |rules| => RuleJson(rules[i], rest))
  }

  function TreeJson(tree: Tree, rest: Remainder): Json {
    Object([Member(ROOT, Object([Member(RULE, Array(RuleList(tree.rules, rest)))] + rest.ofTree(tree)))])
  }

  /** Lengths and indices are unsigned 64-bit numbers. */
  ghost predicate Encodable(rules: seq<Rule>) {
    forall i :: 0 <= i < |rules| ==> rules[i].id.length < U64_LIMIT && EncodableEntries(rules[i].entries)
  }

  ghost predicate EncodableEntries(entries: seq<Entry>) {
    forall i :: 0 <= i < |entries| ==> entries[i].index < U64_LIMIT
  }

  // ---------- fixed points ----------

  lemma ObjectFixed(members: seq<Member>, k: Option<string>)
    ensures Normalize(Object(members), k) == Some(Object(members)) <==> Fixed(members)
  {
    MembersMeaning(members);
    if Fixed(members) {
      assert NormalizeMembers(members).value == members;
    }
  }

  /** A list that normalisation leaves alone has members it leaves alone. */
  lemma ListFixed(items: seq<Json>, k: Option<string>)
    ensures Normalize(Array(items), k) == Some(Array(items)) <==> FixedList(items) && Arrange(items, k) == Some(items)
  {
    if FixedList(items) {
      FixedItems(items);
    }
    if Normalize(Array(items), k) == Some(Array(items)) {
      ItemsMeaning(items);
      var out := NormalizeItems(items).value;
      var p := ArrangePermutes(out, k);
      forall i | 0 <= i < |items| ensures Normalize(items[i], None) == Some(items[i]) {
        Idempotent(items[p[i]], None);
      }
      FixedItems(items);
    }
  }

  lemma PrependFixed(m: Member, members: seq<Member>)
    ensures Fixed([m] + members) <==> Normalize(m.value, Some(m.key)) == Some(m.value) && Fixed(members)
  {
    var all := [m] + members;
    assert all[0] == m;
    if Fixed(all) {
      forall i | 0 <= i < |members|
        ensures Normalize(members[i].value, Some(members[i].key)) == Some(members[i].value)
      {
        assert members[i] == all[i + 1];
      }
    }
  }

  lemma SortFixed(key: Json -> Key, items: seq<Json>)
    ensures SortBy(key, items) == items <==> Sorted(key, items)
  {
    SortSorts(key, items);
    if Sorted(key, items) {
      SortedIsFixed(key, items);
    }
  }

  lemma EntryFixed(e: Entry, rest: Remainder)
    requires rest.Plain() && e.index < U64_LIMIT
    ensures Normalize(EntryJson(e, rest), None) == Some(EntryJson(e, rest))
    ensures GetU64(EntryJson(e, rest), INDEX) == Some(e.index)
  {
    var m := Member(INDEX, Number(e.index));
    PrependFixed(m, rest.ofEntry(e));
    ObjectFixed([m] + rest.ofEntry(e), None);
  }

  /** An entry list passes unchanged exactly when its indices increase. */
  lemma EntriesArranged(items: seq<Json>, entries: seq<Entry>)
    requires |items| == |entries|
    requires forall i :: 0 <= i < |items| ==> GetU64(items[i], INDEX) == Some(entries[i].index)
    ensures Arrange(items, Some(ENTRIES)) == Some(items) <==> CanonicalEntries(entries)
  {
    SortFixed(EntryOrder, items);
    if CanonicalEntries(entries) {
      forall i, j | 0 <= i < j < |items|
        ensures EntryOrder(items[i]).AtMost(EntryOrder(items[j])) && GetU64(items[i], INDEX) != GetU64(items[j], INDEX)
      {
        assert entries[i].index < entries[j].index;
      }
      assert IndexedEntries(items);
    }
    if Sorted(EntryOrder, items) && IndexedEntries(items) {
      forall i, j | 0 <= i < j < |entries| ensures entries[i].index < entries[j].index {
        assert EntryOrder(items[i]).AtMost(EntryOrder(items[j]));
        assert GetU64(items[i], INDEX) != GetU64(items[j], INDEX);
      }
    }
  }

  lemma EntryListFixed(entries: seq<Entry>, rest: Remainder)
    requires rest.Plain() && EncodableEntries(entries)
    ensures Normalize(Array(EntryList(entries, rest)), Some(ENTRIES)) == Some(Array(EntryList(entries, rest)))
            <==> CanonicalEntries(entries)
  {
    var items := EntryList(entries, rest);
    forall i | 0 <= i < |items|
      ensures Normalize(items[i], None) == Some(items[i]) && GetU64(items[i], INDEX) == Some(entries[i].index)
    {
      EntryFixed(entries[i], rest);
    }
    EntriesArranged(items, entries);
    ListFixed(items, Some(ENTRIES));
  }

  lemma RuleFixed(r: Rule, rest: Remainder)
    requires rest.Plain() && r.id.length < U64_LIMIT && EncodableEntries(r.entries)
    ensures Normalize(RuleJson(r, rest), None) == Some(RuleJson(r, rest)) <==> CanonicalEntries(r.entries)
    ensures RuleOrder(RuleJson(r, rest)) == RuleKey(r)
  {
    var l, v := Member(ID_LENGTH, Number(r.id.length)), Member(ID_VALUE, Number(r.id.value));
    var es := Member(ENTRIES, Array(EntryList(r.entries, rest)));
    var tail := rest.ofRule(r);
    EntryListFixed(r.entries, rest);
    PrependFixed(es, tail);
    PrependFixed(v, [es] + tail);
    PrependFixed(l, [v] + ([es] + tail));
    var all := [l, v, es] + tail;
    assert all == [l] + ([v] + ([es] + tail));
    ObjectFixed(all, None);
    RuleNumbers(l, v, es, tail);
  }

  lemma RuleNumbers(l: Member, v: Member, es: Member, tail: seq<Member>)
    requires l.key == ID_LENGTH && v.key == ID_VALUE
    ensures Find([l, v, es] + tail, ID_LENGTH) == Some(l.value)
    ensures Find([l, v, es] + tail, ID_VALUE) == Some(v.value)
  {
    assert ([l, v, es] + tail)[1..] == [v, es] + tail;
  }

  lemma RuleListFixed(rules: seq<Rule>, rest: Remainder)
    requires rest.Plain() && Encodable(rules)
    ensures Normalize(Array(RuleList(rules, rest)), Some(RULE)) == Some(Array(RuleList(rules, rest)))
            <==> Sorted(RuleKey, rules) && forall i :: 0 <= i < |rules| ==> CanonicalEntries(rules[i].entries)
  {
    var items := RuleList(rules, rest);
    forall i | 0 <= i < |items|
      ensures Normalize(items[i], None) == Some(items[i]) <==> CanonicalEntries(rules[i].entries)
      ensures RuleOrder(items[i]) == RuleKey(rules[i])
    {
      RuleFixed(rules[i], rest);
    }
    SortFixed(RuleOrder, items);
    SameOrder(items, rules);
    ListFixed(items, Some(RULE));
  }

  lemma SameOrder(items: seq<Json>, rules: seq<Rule>)
    requires |items| == |rules|
    requires forall i :: 0 <= i < |items| ==> RuleOrder(items[i]) == RuleKey(rules[i])
    ensures Sorted(RuleOrder, items) <==> Sorted(RuleKey, rules)
  {
    if Sorted(RuleOrder, items) {
      forall i, j | 0 <= i < j < |rules| ensures RuleKey(rules[i]).AtMost(RuleKey(rules[j])) {
        assert RuleOrder(items[i]).AtMost(RuleOrder(items[j]));
      }
    }
    if Sorted(RuleKey, rules) {
      forall i, j | 0 <= i < j < |items| ensures RuleOrder(items[i]).AtMost(RuleOrder(items[j])) {
        assert RuleKey(rules[i]).AtMost(RuleKey(rules[j]));
      }
    }
  }

  /** A context is canonical exactly when normalising its tree changes nothing. */
  lemma CanonicalIsNormal(tree: Tree, rest: Remainder)
    requires rest.Plain() && Encodable(tree.rules)
    ensures Normalize(TreeJson(tree, rest), None) == Some(TreeJson(tree, rest)) <==> Canonical(tree)
  {
    var list := Member(RULE, Array(RuleList(tree.rules, rest)));
    var inner := [list] + rest.ofTree(tree);
    RuleListFixed(tree.rules, rest);
    PrependFixed(list, rest.ofTree(tree));
    ObjectFixed(inner, Some(ROOT));
    PrependFixed(Member(ROOT, Object(inner)), []);
    assert [Member(ROOT, Object(inner))] + [] == [Member(ROOT, Object(inner))];
    ObjectFixed([Member(ROOT, Object(inner))], None);
  }

  /** The copied rule's numbers are those of the source and the destination. */
  lemma DestinationEncodable(rules: seq<Rule>, source: RuleId, destination: RuleId, list: seq<Duplicate.Parsed>)
    requires Duplicate.Distinct(list) && Duplicate.DestinationRule(rules, source, destination, list).Some?
    requires Encodable(rules)
    ensures EncodableEntries(Duplicate.DestinationRule(rules, source, destination, list).value.entries)
  {
    Duplicate.DestinationShape(rules, source, destination, list);
    var original := FindRule(rules, source).value;
    var copy := Duplicate.DestinationRule(rules, source, destination, list).value;
    var j :| 0 <= j < |rules| && rules[j] == original;
    forall i | 0 <= i < |copy.entries| ensures copy.entries[i].index < U64_LIMIT {
      assert copy.entries[i].index == original.entries[i].index;
    }
  }

  lemma InsertedEncodable(before: seq<Rule>, after: seq<Rule>, rule: Rule, k: nat)
    requires Duplicate.InsertedRule(before, after, rule, k) && Encodable(before)
    requires rule.id.length < U64_LIMIT && EncodableEntries(rule.entries)
    ensures Encodable(after)
  {
    forall i | 0 <= i < |after| ensures after[i].id.length < U64_LIMIT && EncodableEntries(after[i].entries) {
      assert after[i] == if i < k then before[i] else if i == k then rule else before[i - 1];
    }
  }

  /** A duplicate of a rule in a canonical context is never refused as non-canonical: the tree it would
      publish is one that normalisation leaves alone. */
  lemma DuplicateIsNormal(tree: Tree, source: RuleId, destination: RuleId, list: seq<Duplicate.Parsed>, rest: Remainder)
    requires Canonical(tree) && UniqueIds(tree.rules) && Duplicate.Distinct(list)
    requires FindRule(tree.rules, destination).None?
    requires Duplicate.ExpectedTree(tree, source, destination, list).Some?
    requires rest.Plain() && Encodable(tree.rules) && destination.length < U64_LIMIT
    ensures var next := TreeJson(Duplicate.ExpectedTree(tree, source, destination, list).value, rest);
            Normalize(next, None) == Some(next)
  {
    var k := Duplicate.DuplicateAddsOneRule(tree, source, destination, list);
    var next := Duplicate.ExpectedTree(tree, source, destination, list).value;
    var copy := Duplicate.DestinationRule(tree.rules, source, destination, list).value;
    DestinationEncodable(tree.rules, source, destination, list);
    InsertedEncodable(tree.rules, next.rules, copy, k);
    CanonicalIsNormal(next, rest);
  }
}
