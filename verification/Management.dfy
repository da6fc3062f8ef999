/**
 The management service: the targeted iPATCH that replaces one target value, and the
 duplicate-rule operation. Each is a step on the snapshot; the service methods perform it.
 */
module Management {
  import opened Bits
  import opened Wrappers
  import opened RuleIds
  import opened RuleModel
  import opened Allocation
  import opened Policy
  import opened TargetValues
  import opened Paths
  import opened Overrides
  import opened Duplicate
  import opened Context

  // ---------- targeted iPATCH ----------

  datatype Code = Changed | BadRequest | Conflict | PreconditionFailed

  datatype PatchInstance = PatchInstance(path: Path, value: Option<seq<byte>>)

  /** A decoded iPATCH: whether it addresses the management root, its content format, its operations and the
      tag of its If-Match option. An empty payload has no operations. */
  datatype PatchRequest = PatchRequest(atRoot: bool, contentFormat: nat, instances: seq<PatchInstance>,
                                       ifMatch: Option<nat>)

  /** yang-instances+cbor-seq. */
  const YANG_INSTANCES: nat := 142

  function SetTargetAt(t: TargetValue, index: nat, bytes: seq<byte>): TargetValue {
    match t
    case NoTarget => t
    case Bytes(_) => if index == 0 then Bytes(bytes) else t
    case Mapping(list) => if index < |list| then Mapping(list[index := bytes]) else t
  }

  function PatchEntryAt(e: Entry, t: TargetPath, bytes: seq<byte>): Entry {
    if e.index == t.entry then e.(target := SetTargetAt(e.target, t.index, bytes)) else e
  }

  function PatchRule(rule: Rule, t: TargetPath, bytes: seq<byte>): Rule {
    if rule.id == t.selector then rule.(entries := MapEntries(rule.entries, e => PatchEntryAt(e, t, bytes))) else rule
  }

  /** The tree with one target value replaced. */
  function PatchTree(tree: Tree, t: TargetPath, bytes: seq<byte>): (r: Tree)
    ensures |r.rules| == |tree.rules| && r.guardPeriod == tree.guardPeriod
    ensures forall i :: 0 <= i < |tree.rules| ==> r.rules[i] == PatchRule(tree.rules[i], t, bytes)
  {
    Tree(seq(|tree.rules|, i requires 0 <= i < |tree.rules| => PatchRule(tree.rules[i], t, bytes)), tree.guardPeriod)
  }

  /** The checks against the current context, in order; `Changed` means the candidate may be tried. */
  function PatchChecks(tree: Tree, t: TargetPath, bytes: seq<byte>, isProtected: bool): Code {
    if isProtected then Conflict
    else
      var rule := FindRule(tree.rules, t.selector);
      if rule.None? then Conflict
      else
        var entry := FindEntry(rule.value.entries, t.entry);
        if entry.None? then Conflict
        else
          var current := TargetAt(entry.value.target, t.index);
          if current.None? || !entry.value.length.FixedBits? then Conflict
          else
            var bits := entry.value.length.bits;
            if !BinaryFits(current.value, bits) || bits == 0 then Conflict
            else if |bytes| != |current.value| || !BinaryFits(bytes, bits) then Conflict
            else Changed
  }

  /** A decoded replacement: the tag, the checks, and the candidate, in this order. */
  ghost function TargetStep(recipe: Recipe, s: Snapshot, t: TargetPath, bytes: seq<byte>,
                            ifMatch: Option<nat>): (Snapshot, Code)
  {
    if ifMatch.Some? && ifMatch.value != recipe.TagOf(s.tree) then (s, PreconditionFailed)
    else if PatchChecks(s.tree, t, bytes, IsManagement(s.tree.rules, t.selector)) != Changed then (s, Conflict)
    else
      var candidate := PatchTree(s.tree, t, bytes);
      if !Admissible(recipe, s.tree, candidate) then (s, Conflict)
      else (Snapshot(candidate, s.generation + 1), Changed)
  }

  ghost function PatchStep(recipe: Recipe, s: Snapshot, request: PatchRequest): (Snapshot, Code) {
    if !request.atRoot || request.contentFormat != YANG_INSTANCES || |request.instances| != 1 then (s, BadRequest)
    else
      var target := ParseTargetPath(request.instances[0].path, recipe.sids);
      if target.None? || request.instances[0].value.None? then (s, BadRequest)
      else TargetStep(recipe, s, target.value, request.instances[0].value.value, request.ifMatch)
  }

  // ---------- duplicate-rule ----------

  datatype DuplicateRequest = DuplicateRequest(source: RuleId, destination: RuleId, groups: seq<seq<Instance>>)

  datatype DuplicateResult = Applied | Idempotent | Rejected

  /** The decoded overrides, when the request is well formed. */
  ghost function Decoded(recipe: Recipe, request: DuplicateRequest): Option<seq<Parsed>> {
    if !ValidSelector(request.source) || !ValidSelector(request.destination) then None
    else if !GroupsOk(ParseGroups(request.groups, request.destination, recipe.sids)) then None
    else Some(ParseAll(Flatten(request.groups), request.destination, recipe.sids))
  }

  predicate InNamespace(recipe: Recipe, id: RuleId)
    requires ValidSelector(id)
  {
    recipe.namespace.Some? ==> WellShaped(recipe.namespace.value) && Accepts(recipe.namespace.value, id)
  }

  /** Installs the destination rule, confirms that it is already there, or refuses. */
  ghost function InstallStep(recipe: Recipe, s: Snapshot, rule: Rule): (Snapshot, DuplicateResult)
    requires ValidSelector(rule.id)
  {
    var candidate := Tree(WithRule(s.tree.rules, rule), s.tree.guardPeriod);
    var existing := FindRule(s.tree.rules, rule.id);
    if existing.None? && !InNamespace(recipe, rule.id) then (s, Rejected)
    else if !Admissible(recipe, s.tree, candidate) then (s, Rejected)
    else if existing.Some? then (s, if existing == Some(rule) then Idempotent else Rejected)
    else (Snapshot(candidate, s.generation + 1), Applied)
  }

  /** The rule a request asks for in a context, when it asks for one. */
  ghost function RequestedRule(recipe: Recipe, rules: seq<Rule>, request: DuplicateRequest): (r: Option<Rule>)
    ensures r.Some? ==> r.value.id == request.destination && ValidSelector(r.value.id)
  {
    var list := Decoded(recipe, request);
    if list.None? then None
    else
      DestinationIdentity(rules, request.source, request.destination, request.groups, recipe.sids);
      DestinationRule(rules, request.source, request.destination, list.value)
  }

  ghost function DuplicateStep(recipe: Recipe, s: Snapshot, request: DuplicateRequest): (Snapshot, DuplicateResult) {
    var rule := RequestedRule(recipe, s.tree.rules, request);
    if rule.None? then (s, Rejected) else InstallStep(recipe, s, rule.value)
  }

  // ---------- the service ----------

  class InspectionService {
    const active: ActiveContext

    constructor (active: ActiveContext)
      ensures this.active == active
    {
      this.active := active;
    }

    method ApplyTargetIpatch(request: PatchRequest) returns (code: Code)
      requires active.Valid()
      modifies active
      ensures active.Valid()
      ensures (active.snapshot, code) == PatchStep(active.recipe, old(active.snapshot), request)
    {
      if !request.atRoot || request.contentFormat != YANG_INSTANCES || |request.instances| != 1 {
        return BadRequest;
      }
      var target := ParseTargetPath(request.instances[0].path, active.recipe.sids);
      if target.None? || request.instances[0].value.None? {
        return BadRequest;
      }
      if request.ifMatch.Some? && request.ifMatch.value != active.Tag() {
        return PreconditionFailed;
      }
      var bytes := request.instances[0].value.value;
      var isProtected := Policy.Contains(ProtectedOf(active.snapshot.tree.rules), target.value.selector);
      ContainsIsManagement(active.snapshot.tree.rules, target.value.selector);
      code := PatchChecks(active.snapshot.tree, target.value, bytes, isProtected);
      if code != Changed {
        return Conflict;
      }
      var ok := active.TryPublish(PatchTree(active.snapshot.tree, target.value, bytes));
      return if ok then Changed else Conflict;
    }

    method ApplyDuplicateOperation(request: DuplicateRequest) returns (result: DuplicateResult)
      requires active.Valid()
      modifies active
      ensures active.Valid()
      ensures (active.snapshot, result) == DuplicateStep(active.recipe, old(active.snapshot), request)
    {
      var source, destination := request.source, request.destination;
      if !ValidSelector(source) || !ValidSelector(destination) {
        return Rejected;
      }
      var list := DecodeInner(request.groups, destination, active.recipe.sids);
      if list.None? {
        return Rejected;
      }
      var expected := ExpectedDuplicateTree(active.snapshot.tree, source, destination, list.value, active.recipe.sids);
      if expected.None? {
        return Rejected;
      }
      ghost var rule := RequestedRule(active.recipe, active.snapshot.tree.rules, request);
      result := Install(destination, expected.value, rule.value);
    }

    /** Prepares and validates a candidate that is not going to be published. */
    method Acceptable(candidate: Tree) returns (ok: bool)
      requires active.Valid()
      ensures ok == Admissible(active.recipe, active.snapshot.tree, candidate)
    {
      var prepared := Prepare(active.recipe, candidate);
      if prepared.None? {
        return false;
      }
      ok := active.ValidateCandidate(active.snapshot.tree, prepared.value);
    }

    /** The part after the expected tree is built: namespace guard, full validation, comparison with an
        existing destination, publication. */
    method Install(destination: RuleId, expected: Tree, ghost rule: Rule) returns (result: DuplicateResult)
      requires active.Valid() && ValidSelector(destination) && rule.id == destination
      requires expected == Tree(WithRule(active.snapshot.tree.rules, rule), active.snapshot.tree.guardPeriod)
      modifies active
      ensures active.Valid()
      ensures (active.snapshot, result) == InstallStep(active.recipe, old(active.snapshot), rule)
    {
      var existing := FindRule(active.snapshot.tree.rules, destination);
      if existing.None? && !InNamespace(active.recipe, destination) {
        return Rejected;
      }
      WithRuleFinds(active.snapshot.tree.rules, rule);
      var expectedRule := FindRule(expected.rules, destination);
      if existing.Some? {
        var ok := Acceptable(expected);
        return if ok && existing == expectedRule then Idempotent else Rejected;
      }
      var published := active.TryPublish(expected);
      return if published then Applied else Rejected;
    }
  }

  /** The destination rule of a decoded request carries the destination RuleID. */
  lemma DestinationIdentity(rules: seq<Rule>, source: RuleId, destination: RuleId, groups: seq<seq<Instance>>,
                            sids: ModelSids)
    requires GroupsOk(ParseGroups(groups, destination, sids))
    ensures Distinct(ParseAll(Flatten(groups), destination, sids))
    ensures var rule := DestinationRule(rules, source, destination, ParseAll(Flatten(groups), destination, sids));
            rule.Some? ==> rule.value.id == destination
  {
    var list := ParseAll(Flatten(groups), destination, sids);
    ParseFlatten(groups, destination, sids);
    AcceptedAreDistinct(ParseGroups(groups, destination, sids));
    if DestinationRule(rules, source, destination, list).Some? {
      DestinationShape(rules, source, destination, list);
    }
  }

  /** What it takes for a duplicate to be applied, and what it leaves. */
  lemma AppliedMeans(recipe: Recipe, s: Snapshot, request: DuplicateRequest)
    requires DuplicateStep(recipe, s, request).1 == Applied
    ensures var rule := RequestedRule(recipe, s.tree.rules, request);
            && rule.Some? && FindRule(s.tree.rules, rule.value.id).None? && InNamespace(recipe, rule.value.id)
            && DuplicateStep(recipe, s, request).0.tree == Tree(WithRule(s.tree.rules, rule.value), s.tree.guardPeriod)
            && Loadable(recipe, DuplicateStep(recipe, s, request).0.tree)
  {
  }
}
