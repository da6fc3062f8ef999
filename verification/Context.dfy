/**
 The active context: one immutable snapshot at a time, replaced only by a validated candidate.
 Publications happen under the writer lock, so each method below is one atomic step. The steps
 are also given as functions of the snapshot, which the theorems about runs use.
 */
module Context {
  import opened Bits
  import opened Wrappers
  import opened RuleIds
  import opened RuleModel
  import opened Allocation
  import opened Kraft
  import opened Policy
  import opened Paths

  /** What every candidate of one context is prepared with. `settings` stands for the parts compared by
      identity: SID file, device, profiles and namespace. `loads` is the part of loading done by other packages,
      `encode` the canonical encoding; `digest` and `tag` stand for the hash of a context and its compact form. */
  datatype Recipe = Recipe(settings: nat, namespace: Option<Namespace>, sids: ModelSids,
                           loads: Tree -> bool, encode: Tree -> nat, digest: Tree -> nat, tag: nat -> nat)
  {
    function TagOf(tree: Tree): nat { tag(digest(tree)) }
  }

  datatype Snapshot = Snapshot(tree: Tree, generation: nat)

  /** A candidate after loading, with the settings it was prepared under and its encoding. */
  datatype Prepared = Prepared(settings: nat, tree: Tree, sor: nat)

  // ---------- candidate validity ----------

  predicate NamespaceAccepts(recipe: Recipe, ids: seq<RuleId>)
    requires AllValid(ids)
  {
    recipe.namespace.Some? ==> WellShaped(recipe.namespace.value) && !Collides(recipe.namespace.value, ids)
  }

  /** A tree a context can be prepared from: canonical, with explicit RuleIDs of which none is a prefix of
      another, respecting the dynamic namespace, and acceptable to the other packages. */
  predicate Loadable(recipe: Recipe, tree: Tree) {
    && Canonical(tree)
    && AllValid(RuleIdsOf(tree.rules)) && PrefixFree(RuleIdsOf(tree.rules))
    && NamespaceAccepts(recipe, RuleIdsOf(tree.rules))
    && recipe.loads(tree)
  }

  /** A candidate that may follow `current`: loadable, with the protected rules unchanged. */
  ghost predicate Admissible(recipe: Recipe, current: Tree, candidate: Tree) {
    Loadable(recipe, candidate) && ProtectionKept(current.rules, candidate.rules)
  }

  /** Prefix-free RuleIDs are in particular distinct. */
  lemma LoadableUnique(recipe: Recipe, tree: Tree)
    requires Loadable(recipe, tree)
    ensures UniqueIds(tree.rules)
  {
    var ids := RuleIdsOf(tree.rules);
    forall i, j | 0 <= i < j < |tree.rules| ensures tree.rules[i].id != tree.rules[j].id {
      assert !Overlaps(ids[i], ids[j]);
      QuotientIs(ids[i].value, 1, ids[i].value);
      assert Pow2(0) == 1;
    }
  }

  /** A loaded context with a namespace is one that allocation can work on. */
  lemma LoadableSettled(recipe: Recipe, tree: Tree)
    requires Loadable(recipe, tree) && recipe.namespace.Some?
    ensures Settled(recipe.namespace.value, RuleIdsOf(tree.rules))
  {
  }

  /** The namespace loop of context preparation. */
  method CheckNamespace(ns: Namespace, rules: seq<Rule>) returns (ok: bool)
    requires AllValid(RuleIdsOf(rules))
    ensures ok <==> WellShaped(ns) && !Collides(ns, RuleIdsOf(rules))
  {
    var validated := Validate(ns);
    if validated.None? {
      return false;
    }
    ghost var ids := RuleIdsOf(rules);
    var i := 0;
    while i < |rules|
      invariant 0 <= i <= |rules|
      invariant forall j :: 0 <= j < i ==> !(Overlaps(ids[j], ns.prefix) && !Accepts(ns, ids[j]))
    {
      assert ids[i] == rules[i].id;
      if Overlaps(rules[i].id, validated.value.prefix) && !Accepts(validated.value, rules[i].id) {
        return false;
      }
      i := i + 1;
    }
    return true;
  }

  /** Prepares a candidate, or refuses it. */
  method Prepare(recipe: Recipe, tree: Tree) returns (r: Option<Prepared>)
    ensures r == if Loadable(recipe, tree) then Some(Prepared(recipe.settings, tree, recipe.encode(tree))) else None
  {
    if !Canonical(tree) {
      return None;
    }
    var ids := RuleIdsOf(tree.rules);
    if !AllValid(ids) {
      return None;
    }
    if !PrefixFree(ids) {
      return None;
    }
    if recipe.namespace.Some? {
      var accepted := CheckNamespace(recipe.namespace.value, tree.rules);
      if !accepted {
        return None;
      }
    }
    return if recipe.loads(tree) then Some(Prepared(recipe.settings, tree, recipe.encode(tree))) else None;
  }

  // ---------- the publisher ----------

  class ActiveContext {
    const recipe: Recipe
    var snapshot: Snapshot

    predicate Valid()
      reads this
    {
      Loadable(recipe, snapshot.tree)
    }

    constructor (recipe: Recipe, tree: Tree)
      requires Loadable(recipe, tree)
      ensures this.recipe == recipe && snapshot == Snapshot(tree, 1) && Valid()
    {
      this.recipe := recipe;
      snapshot := Snapshot(tree, 1);
    }

    function Tag(): nat
      reads this
    {
      recipe.TagOf(snapshot.tree)
    }

    method PublishLocked(tree: Tree)
      modifies this
      ensures snapshot == Snapshot(tree, old(snapshot.generation) + 1)
    {
      snapshot := Snapshot(tree, snapshot.generation + 1);
    }

    /** The same settings, the canonical encoding, and the protected rules unchanged. */
    method ValidateCandidate(current: Tree, prepared: Prepared) returns (ok: bool)
      requires Loadable(recipe, current) && Loadable(recipe, prepared.tree)
      ensures ok <==>
              && prepared.settings == recipe.settings && prepared.sor == recipe.encode(prepared.tree)
              && ProtectionKept(current.rules, prepared.tree.rules)
    {
      if prepared.settings != recipe.settings || recipe.encode(prepared.tree) != prepared.sor {
        return false;
      }
      var expected := Derive(current.rules);
      var candidate := Derive(prepared.tree.rules);
      ProtectedWellKept(current.rules);
      ProtectedWellKept(prepared.tree.rules);
      ok := Enforce(expected.value, candidate.value);
      LoadableUnique(recipe, current);
      LoadableUnique(recipe, prepared.tree);
      SameProtected(current.rules, prepared.tree.rules);
    }

    /** Prepares, validates and publishes in one step. */
    method TryPublish(candidate: Tree) returns (ok: bool)
      requires Valid()
      modifies this
      ensures Valid() && ok == Admissible(recipe, old(snapshot.tree), candidate)
      ensures snapshot == PublishStep(recipe, old(snapshot), candidate)
    {
      var prepared := Prepare(recipe, candidate);
      if prepared.None? {
        return false;
      }
      ok := ValidateCandidate(snapshot.tree, prepared.value);
      if ok {
        PublishLocked(prepared.value.tree);
      }
    }
  }

  ghost function PublishStep(recipe: Recipe, s: Snapshot, candidate: Tree): Snapshot {
    if Admissible(recipe, s.tree, candidate) then Snapshot(candidate, s.generation + 1) else s
  }

  // ---------- the datastore backend ----------

  /** Compare-and-swap on the digest last observed. */
  ghost function ReplaceStep(recipe: Recipe, s: Snapshot, observed: Option<nat>, next: Tree)
    : (Snapshot, Option<nat>, bool)
  {
    if observed != Some(recipe.digest(s.tree)) || !Admissible(recipe, s.tree, next) then (s, observed, false)
    else (Snapshot(next, s.generation + 1), Some(recipe.digest(next)), true)
  }

  class ActiveContextBackend {
    const active: ActiveContext
    var observed: Option<nat>

    constructor (active: ActiveContext)
      ensures this.active == active && observed == Some(active.recipe.digest(active.snapshot.tree))
    {
      this.active := active;
      observed := Some(active.recipe.digest(active.snapshot.tree));
    }

    method ReadTree() returns (tree: Tree)
      modifies this`observed
      ensures tree == active.snapshot.tree && observed == Some(active.recipe.digest(tree))
    {
      tree := active.snapshot.tree;
      observed := Some(active.recipe.digest(tree));
    }

    method ReplaceTree(next: Tree) returns (ok: bool)
      requires active.Valid()
      modifies this`observed, active
      ensures active.Valid()
      ensures (active.snapshot, observed, ok) == ReplaceStep(active.recipe, old(active.snapshot), old(observed), next)
    {
      if observed != Some(active.recipe.digest(active.snapshot.tree)) {
        return false;
      }
      ok := active.TryPublish(next);
      if ok {
        observed := Some(active.recipe.digest(next));
      }
    }
  }
}
