/**
 Exactly when a duplicate request asks for a rule, told from the request and the rules alone.
 */
module Requests {
  import opened Bits
  import opened Wrappers
  import opened RuleIds
  import opened RuleModel
  import opened Policy
  import opened Paths
  import opened Overrides
  import opened Duplicate
  import opened Context
  import opened Management

  function Key(i: Instance, destination: RuleId, sids: ModelSids): Option<(u64, Leaf)> {
    LeafOf(i.path, destination, sids)
  }

  /** One to three instances, of different paths that name different leaves. */
  predicate GroupWellFormed(g: seq<Instance>, destination: RuleId, sids: ModelSids) {
    && 1 <= |g| <= 3
    && (forall i :: 0 <= i < |g| ==> Key(g[i], destination, sids).Some?)
    && (forall i, j :: 0 <= i < j < |g| ==> g[i].path != g[j].path)
    && (forall i, j :: 0 <= i < j < |g| ==> Key(g[i], destination, sids) != Key(g[j], destination, sids))
  }

  /** No entry is overridden in both groups. */
  predicate EntriesApart(a: seq<Instance>, b: seq<Instance>, destination: RuleId, sids: ModelSids) {
    forall i, j :: 0 <= i < |a| && 0 <= j < |b| ==>
      var x, y := Key(a[i], destination, sids), Key(b[j], destination, sids);
      x.Some? && y.Some? ==> x.value.0 != y.value.0
  }

  predicate WellFormed(groups: seq<seq<Instance>>, destination: RuleId, sids: ModelSids) {
    && (forall a :: 0 <= a < |groups| ==> GroupWellFormed(groups[a], destination, sids))
    && (forall a, b :: 0 <= a < b < |groups| ==> EntriesApart(groups[a], groups[b], destination, sids))
  }

  lemma GroupMeaning(g: seq<Instance>, destination: RuleId, sids: ModelSids)
    ensures GroupOk(ParseAll(g, destination, sids)) <==> GroupWellFormed(g, destination, sids)
  {
    var parsed := ParseAll(g, destination, sids);
    forall i | 0 <= i < |g| ensures parsed[i].key == Key(g[i], destination, sids) && parsed[i].path == g[i].path {
    }
  }

  lemma ApartMeaning(a: seq<Instance>, b: seq<Instance>, destination: RuleId, sids: ModelSids)
    ensures Apart(ParseAll(a, destination, sids), ParseAll(b, destination, sids)) <==>
            EntriesApart(a, b, destination, sids)
  {
    var pa, pb := ParseAll(a, destination, sids), ParseAll(b, destination, sids);
    if Apart(pa, pb) {
      forall i, j | 0 <= i < |a| && 0 <= j < |b| && pa[i].key.Some? && pb[j].key.Some?
        ensures pa[i].key.value.0 != pb[j].key.value.0
      {
        assert Touches(pa, pa[i].key.value.0) && Touches(pb, pb[j].key.value.0);
      }
    }
    if !Apart(pa, pb) {
      var entry :| Touches(pa, entry) && Touches(pb, entry);
      var i :| 0 <= i < |pa| && pa[i].key.Some? && pa[i].key.value.0 == entry;
      var j :| 0 <= j < |pb| && pb[j].key.Some? && pb[j].key.value.0 == entry;
      assert Key(a[i], destination, sids) == pa[i].key && Key(b[j], destination, sids) == pb[j].key;
    }
  }

  /** The groups a request may have. */
  lemma GroupsMeaning(groups: seq<seq<Instance>>, destination: RuleId, sids: ModelSids)
    ensures GroupsOk(ParseGroups(groups, destination, sids)) <==> WellFormed(groups, destination, sids)
  {
    var parsed := ParseGroups(groups, destination, sids);
    forall a | 0 <= a < |groups| ensures GroupOk(parsed[a]) <==> GroupWellFormed(groups[a], destination, sids) {
      GroupMeaning(groups[a], destination, sids);
    }
    forall a, b | 0 <= a < b < |groups|
      ensures Apart(parsed[a], parsed[b]) <==> EntriesApart(groups[a], groups[b], destination, sids)
    {
      ApartMeaning(groups[a], groups[b], destination, sids);
    }
  }

  /** The instance carries a value of its leaf's kind, and the rule has the leaf. */
  predicate Writes(i: Instance, rule: Rule, destination: RuleId, sids: ModelSids)
    requires Key(i, destination, sids).Some?
  {
    var (entry, leaf) := Key(i, destination, sids).value;
    i.value.Some? && Applicable(rule, Write(entry, leaf, i.value.value))
  }

  lemma WritesMeaning(list: seq<Instance>, rule: Rule, destination: RuleId, sids: ModelSids)
    requires Distinct(ParseAll(list, destination, sids))
    ensures forall i :: 0 <= i < |list| ==> Key(list[i], destination, sids).Some?
    ensures OverrideRule(rule, ParseAll(list, destination, sids)).Some? <==>
            forall i :: 0 <= i < |list| ==> Writes(list[i], rule, destination, sids)
  {
    var parsed := ParseAll(list, destination, sids);
    forall i | 0 <= i < |list|
      ensures parsed[i].key == Key(list[i], destination, sids) && parsed[i].value == list[i].value {
    }
    SecondCheckNeverFires(rule, parsed);
    if AllPresent(parsed) {
      ApplyWritesMeaning(rule, WritesOf(parsed));
      forall i | 0 <= i < |list|
        ensures Applicable(rule, WritesOf(parsed)[i]) <==> Writes(list[i], rule, destination, sids)
      {
        assert WritesOf(parsed)[i] == WriteOf(parsed[i]);
      }
    }
  }

  lemma SameEntriesWrite(i: Instance, rule: Rule, id: RuleId, destination: RuleId, sids: ModelSids)
    requires Key(i, destination, sids).Some?
    ensures Writes(i, rule.(id := id), destination, sids) <==> Writes(i, rule, destination, sids)
  {
  }

  /** A request asks for a rule exactly when both RuleIDs are valid, the groups are well formed, the source is an
      ordinary rule, the destination is neither protected nor the source, and every override can be written to the
      source. The rule then has the destination RuleID. */
  lemma RequestedIff(recipe: Recipe, rules: seq<Rule>, request: DuplicateRequest)
    ensures var source := FindRule(rules, request.source);
            RequestedRule(recipe, rules, request).Some? <==>
            && ValidSelector(request.source) && ValidSelector(request.destination)
            && WellFormed(request.groups, request.destination, recipe.sids)
            && source.Some? && source.value.nature != Management
            && !IsManagement(rules, request.source) && !IsManagement(rules, request.destination)
            && request.source != request.destination
            && forall i :: 0 <= i < |Flatten(request.groups)| ==>
                 && Key(Flatten(request.groups)[i], request.destination, recipe.sids).Some?
                 && Writes(Flatten(request.groups)[i], source.value, request.destination, recipe.sids)
  {
    GroupsMeaning(request.groups, request.destination, recipe.sids);
    var source := FindRule(rules, request.source);
    if source.Some? && WellFormed(request.groups, request.destination, recipe.sids) {
      var list := Flatten(request.groups);
      DestinationIdentity(rules, request.source, request.destination, request.groups, recipe.sids);
      WritesMeaning(list, source.value.(id := request.destination), request.destination, recipe.sids);
      forall i | 0 <= i < |list|
        ensures Writes(list[i], source.value.(id := request.destination), request.destination, recipe.sids) <==>
                Writes(list[i], source.value, request.destination, recipe.sids)
      {
        SameEntriesWrite(list[i], source.value, request.destination, request.destination, recipe.sids);
      }
    }
  }
}
