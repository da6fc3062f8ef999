/**
 Whole runs of one context: any number of datastore backends and management requests, in any
 order. A run is a list of events; every writer is atomic, so a list is an interleaving.
 */
module Runs {
  import opened Bits
  import opened Wrappers
  import opened Sorting
  import opened RuleIds
  import opened RuleModel
  import opened Policy
  import opened Paths
  import opened Duplicate
  import opened Context
  import opened Management

  datatype Event =
    | Patch(patch: PatchRequest)
    | Copy(copy: DuplicateRequest)
    | Open(backend: nat)
    | Read(backend: nat)
    | Replace(backend: nat, next: Tree)

  /** The active snapshot, and the digest each open backend has observed. */
  datatype World = World(snap: Snapshot, observed: map<nat, nat>)

  function Observed(w: World, b: nat): Option<nat> {
    if b in w.observed then Some(w.observed[b]) else None
  }

  ghost function Step(recipe: Recipe, w: World, e: Event): World {
    match e
    case Patch(request) => w.(snap := PatchStep(recipe, w.snap, request).0)
    case Copy(request) => w.(snap := DuplicateStep(recipe, w.snap, request).0)
    case Open(b) => w.(observed := w.observed[b := recipe.digest(w.snap.tree)])
    case Read(b) => w.(observed := w.observed[b := recipe.digest(w.snap.tree)])
    case Replace(b, next) =>
      var (snap, observed, ok) := ReplaceStep(recipe, w.snap, Observed(w, b), next);
      World(snap, if ok then w.observed[b := recipe.digest(next)] else w.observed)
  }

  ghost function Run(recipe: Recipe, w: World, es: seq<Event>): World {
    if es == [] then w else Step(recipe, Run(recipe, w, es[..|es| - 1]), es[|es| - 1])
  }

  ghost predicate Publishes(recipe: Recipe, w: World, e: Event) {
    Step(recipe, w, e).snap != w.snap
  }

  ghost function Publications(recipe: Recipe, w: World, es: seq<Event>): nat {
    if es == [] then 0
    else
      var init := es[..|es| - 1];
      Publications(recipe, w, init) + if Publishes(recipe, Run(recipe, w, init), es[|es| - 1]) then 1 else 0
  }

  // ---------- what every step keeps ----------

  /** Every writer either leaves the snapshot alone or publishes an admissible successor. */
  lemma StepPublishes(recipe: Recipe, w: World, e: Event)
    ensures var next := Step(recipe, w, e).snap;
            next == w.snap || (Admissible(recipe, w.snap.tree, next.tree) && next.generation == w.snap.generation + 1)
  {
  }

  /** Over any run: the context stays loadable, the management rules are the initial ones, and the
      generation counts the publications. */
  lemma {:induction false} RunInvariant(recipe: Recipe, w: World, es: seq<Event>)
    requires Loadable(recipe, w.snap.tree)
    ensures var end := Run(recipe, w, es).snap;
            && Loadable(recipe, end.tree)
            && ProtectionKept(w.snap.tree.rules, end.tree.rules)
            && end.generation == w.snap.generation + Publications(recipe, w, es)
  {
    if es != [] {
      var init := es[..|es| - 1];
      RunInvariant(recipe, w, init);
      StepPublishes(recipe, Run(recipe, w, init), es[|es| - 1]);
    }
  }

  /** Every reachable snapshot derives the protected rules of the first, RuleID by RuleID. */
  lemma ProtectedForever(recipe: Recipe, w: World, es: seq<Event>)
    requires Loadable(recipe, w.snap.tree)
    ensures ProtectedOf(Run(recipe, w, es).snap.tree.rules) == ProtectedOf(w.snap.tree.rules)
    ensures AsMap(ProtectedOf(Run(recipe, w, es).snap.tree.rules)) == AsMap(ProtectedOf(w.snap.tree.rules))
  {
    RunInvariant(recipe, w, es);
    LoadableUnique(recipe, w.snap.tree);
    LoadableUnique(recipe, Run(recipe, w, es).snap.tree);
    SameProtected(w.snap.tree.rules, Run(recipe, w, es).snap.tree.rules);
  }

  // ---------- no lost update ----------

  /** The tree backend `b` last saw: read, found when it was opened, or published itself. */
  ghost function LastSeen(recipe: Recipe, w: World, es: seq<Event>, b: nat): Option<Tree> {
    if es == [] then None
    else
      var init, e := es[..|es| - 1], es[|es| - 1];
      var before := Run(recipe, w, init);
      if (e.Open? || e.Read?) && e.backend == b then Some(before.snap.tree)
      else if e.Replace? && e.backend == b && Publishes(recipe, before, e) then Some(e.next)
      else LastSeen(recipe, w, init, b)
  }

  lemma {:induction false} ObservedIsLastSeen(recipe: Recipe, w: World, es: seq<Event>, b: nat)
    requires w.observed == map[]
    ensures var seen := LastSeen(recipe, w, es, b);
            Observed(Run(recipe, w, es), b) == if seen.None? then None else Some(recipe.digest(seen.value))
  {
    if es != [] {
      var init, e := es[..|es| - 1], es[|es| - 1];
      ObservedIsLastSeen(recipe, w, init, b);
    }
  }

  /** A replace is published exactly when the digest of the tree the backend last saw is the current one and the
      candidate is admissible; with no collision between those two trees it then overwrites exactly what its
      caller read. A failed replace changes nothing. */
  lemma NoLostUpdate(recipe: Recipe, w: World, es: seq<Event>, b: nat, next: Tree)
    requires w.observed == map[]
    ensures var before := Run(recipe, w, es);
            var after := Step(recipe, before, Replace(b, next));
            var seen := LastSeen(recipe, w, es, b);
            && (Publishes(recipe, before, Replace(b, next)) <==>
                  && seen.Some? && recipe.digest(seen.value) == recipe.digest(before.snap.tree)
                  && Admissible(recipe, before.snap.tree, next))
            && (if Publishes(recipe, before, Replace(b, next)) then
                  && (NoCollision(recipe, seen.value, before.snap.tree) ==> seen.value == before.snap.tree)
                  && after.snap == Snapshot(next, before.snap.generation + 1)
                else after == before)
  {
    ObservedIsLastSeen(recipe, w, es, b);
  }

  /** The digests of these two trees tell them apart. */
  ghost predicate NoCollision(recipe: Recipe, a: Tree, b: Tree) {
    recipe.digest(a) == recipe.digest(b) ==> a == b
  }

  /** The comparison is of contents, not of generations: two publications that restore the tree a backend
      read let its replace succeed. */
  lemma RestoredTreeIsReplaced(recipe: Recipe, s: Snapshot, other: Tree, next: Tree)
    requires other != s.tree
    requires Admissible(recipe, s.tree, other) && Admissible(recipe, other, s.tree) && Admissible(recipe, s.tree, next)
    ensures var es := [Open(0), Open(1)] + [Replace(1, other)] + [Replace(1, s.tree)];
            && Publications(recipe, World(s, map[]), es) == 2
            && Run(recipe, World(s, map[]), es + [Replace(0, next)]).snap == Snapshot(next, s.generation + 3)
  {
    var es := [Open(0), Open(1)] + [Replace(1, other)] + [Replace(1, s.tree)];
    ThereAndBack(recipe, s, other);
    ReplaceNext(recipe, World(s, map[]), es, 0, next);
  }

  lemma ThereAndBack(recipe: Recipe, s: Snapshot, other: Tree)
    requires Admissible(recipe, s.tree, other) && Admissible(recipe, other, s.tree)
    ensures var es := [Open(0), Open(1)] + [Replace(1, other)] + [Replace(1, s.tree)];
            var end := Run(recipe, World(s, map[]), es);
            && Publications(recipe, World(s, map[]), es) == 2
            && end.snap == Snapshot(s.tree, s.generation + 2)
            && Observed(end, 0) == Some(recipe.digest(s.tree))
  {
    var w0, bothOpen := World(s, map[]), [Open(0), Open(1)];
    BothOpen(recipe, s);
    ReplaceNext(recipe, w0, bothOpen, 1, other);
    ReplaceNext(recipe, w0, bothOpen + [Replace(1, other)], 1, s.tree);
  }

  lemma BothOpen(recipe: Recipe, s: Snapshot)
    ensures Publications(recipe, World(s, map[]), [Open(0), Open(1)]) == 0
    ensures Run(recipe, World(s, map[]), [Open(0), Open(1)]) ==
            World(s, map[0 := recipe.digest(s.tree), 1 := recipe.digest(s.tree)])
  {
    RunAppend(recipe, World(s, map[]), [], Open(0));
    RunAppend(recipe, World(s, map[]), [Open(0)], Open(1));
    assert [Open(0)] + [Open(1)] == [Open(0), Open(1)];
    assert map[][0 := recipe.digest(s.tree)][1 := recipe.digest(s.tree)]
      == map[0 := recipe.digest(s.tree), 1 := recipe.digest(s.tree)];
  }

  lemma ReplaceNext(recipe: Recipe, w: World, es: seq<Event>, b: nat, next: Tree)
    requires var now := Run(recipe, w, es);
             Observed(now, b) == Some(recipe.digest(now.snap.tree)) && Admissible(recipe, now.snap.tree, next)
    ensures var now := Run(recipe, w, es);
            && Run(recipe, w, es + [Replace(b, next)]) ==
               World(Snapshot(next, now.snap.generation + 1), now.observed[b := recipe.digest(next)])
            && Publications(recipe, w, es + [Replace(b, next)]) == Publications(recipe, w, es) + 1
  {
    RunAppend(recipe, w, es, Replace(b, next));
    ReplaceSucceeds(recipe, Run(recipe, w, es), b, next);
  }

  lemma RunAppend(recipe: Recipe, w: World, es: seq<Event>, e: Event)
    ensures [] + [e] == [e]
    ensures Run(recipe, w, es + [e]) == Step(recipe, Run(recipe, w, es), e)
    ensures Publications(recipe, w, es + [e]) ==
            Publications(recipe, w, es) + if Publishes(recipe, Run(recipe, w, es), e) then 1 else 0
  {
    assert (es + [e])[..|es + [e]| - 1] == es;
  }

  lemma ReplaceSucceeds(recipe: Recipe, w: World, b: nat, next: Tree)
    requires Observed(w, b) == Some(recipe.digest(w.snap.tree)) && Admissible(recipe, w.snap.tree, next)
    ensures Step(recipe, w, Replace(b, next)) ==
            World(Snapshot(next, w.snap.generation + 1), w.observed[b := recipe.digest(next)])
  {
  }

  // ---------- service runs ----------

  ghost predicate ServiceOnly(es: seq<Event>) {
    forall i :: 0 <= i < |es| ==> es[i].Patch? || es[i].Copy?
  }

  lemma {:induction false} PatchKeepsIds(rules: seq<Rule>, patched: seq<Rule>, t: TargetPath, bytes: seq<byte>,
                                         id: RuleId)
    requires |patched| == |rules|
    requires forall i :: 0 <= i < |rules| ==> patched[i] == PatchRule(rules[i], t, bytes)
    ensures FindRule(patched, id).Some? == FindRule(rules, id).Some?
  {
    forall i | 0 <= i < |rules| ensures patched[i].id == rules[i].id {
    }
  }

  /** No request of the service removes a RuleID. */
  lemma ServiceKeepsIds(recipe: Recipe, w: World, e: Event, id: RuleId)
    requires e.Patch? || e.Copy?
    requires FindRule(w.snap.tree.rules, id).Some?
    ensures FindRule(Step(recipe, w, e).snap.tree.rules, id).Some?
  {
    var next := Step(recipe, w, e).snap;
    if next != w.snap {
      match e {
        case Patch(request) =>
          var t := ParseTargetPath(request.instances[0].path, recipe.sids).value;
          PatchKeepsIds(w.snap.tree.rules, next.tree.rules, t, request.instances[0].value.value, id);
        case Copy(request) => DuplicateKeepsIds(recipe, w.snap, request, id);
      }
    }
  }

  lemma DuplicateKeepsIds(recipe: Recipe, s: Snapshot, request: DuplicateRequest, id: RuleId)
    requires FindRule(s.tree.rules, id).Some?
    ensures FindRule(DuplicateStep(recipe, s, request).0.tree.rules, id).Some?
  {
    var rule := RequestedRule(recipe, s.tree.rules, request);
    if rule.Some? {
      CopyKeepsIds(s.tree.rules, rule.value, id);
    }
  }

  lemma CopyKeepsIds(rules: seq<Rule>, rule: Rule, id: RuleId)
    requires FindRule(rules, id).Some?
    ensures FindRule(WithRule(rules, rule), id).Some?
  {
    if id == rule.id {
      WithRuleFinds(rules, rule);
    } else {
      var found := FindRule(rules, id).value;
      var all := WithRule(rules, rule);
      SortPermutes(RuleKey, Retain(rules, rule.id) + [rule]);
      assert found in Retain(rules, rule.id);
      assert found in Retain(rules, rule.id) + [rule];
      InMultiset(all, Retain(rules, rule.id) + [rule], found);
      var i :| 0 <= i < |all| && all[i] == found;
    }
  }

  lemma {:induction false} ServiceRunKeepsIds(recipe: Recipe, w: World, es: seq<Event>, id: RuleId)
    requires ServiceOnly(es) && FindRule(w.snap.tree.rules, id).Some?
    ensures FindRule(Run(recipe, w, es).snap.tree.rules, id).Some?
  {
    if es != [] {
      var init := es[..|es| - 1];
      ServiceRunKeepsIds(recipe, w, init, id);
      ServiceKeepsIds(recipe, Run(recipe, w, init), es[|es| - 1], id);
    }
  }

  /** After a duplicate has been accepted its destination is present. */
  lemma AcceptedIsPresent(recipe: Recipe, s: Snapshot, request: DuplicateRequest)
    requires DuplicateStep(recipe, s, request).1 != Rejected
    ensures FindRule(DuplicateStep(recipe, s, request).0.tree.rules, request.destination).Some?
  {
    var rule := RequestedRule(recipe, s.tree.rules, request).value;
    WithRuleFinds(s.tree.rules, rule);
  }

  /** An existing destination is never published over. */
  lemma PresentIsNeverRepublished(recipe: Recipe, s: Snapshot, request: DuplicateRequest)
    requires FindRule(s.tree.rules, request.destination).Some?
    ensures DuplicateStep(recipe, s, request).0 == s && DuplicateStep(recipe, s, request).1 != Applied
  {
  }

  /** Once a duplicate has been accepted, replaying its datagram in any later state of the service never
      changes the context. */
  lemma ReplayNeverChanges(recipe: Recipe, w: World, request: DuplicateRequest, es: seq<Event>)
    requires DuplicateStep(recipe, w.snap, request).1 != Rejected && ServiceOnly(es)
    ensures var later := Run(recipe, Step(recipe, w, Copy(request)), es);
            DuplicateStep(recipe, later.snap, request).0 == later.snap
  {
    AcceptedIsPresent(recipe, w.snap, request);
    ServiceRunKeepsIds(recipe, Step(recipe, w, Copy(request)), es, request.destination);
    PresentIsNeverRepublished(recipe, Run(recipe, Step(recipe, w, Copy(request)), es).snap, request);
  }
}
