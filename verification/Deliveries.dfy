/**
 What reaches the management service: requests for the first time, in any mixture of patches and
 duplicates, and repetitions of duplicate datagrams handled before, at any later point.
 */
module Deliveries {
  import opened Context
  import opened Management
  import opened Runs

  /** A new request, or a repetition of the one that came as number `first`. */
  datatype Delivery = Fresh(event: Event) | Again(first: nat)

  /** The requests without the repetitions. */
  function FreshOf(ds: seq<Delivery>): (r: seq<Event>)
    ensures |r| <= |ds|
  {
    if ds == [] then []
    else
      var init, last := FreshOf(ds[..|ds| - 1]), ds[|ds| - 1];
      if last.Fresh? then init + [last.event] else init
  }

  /** The request number `n` of the run is a duplicate that was not rejected when it first came. */
  ghost predicate AcceptedCopy(recipe: Recipe, w: World, es: seq<Event>, n: nat) {
    n < |es| && es[n].Copy? && DuplicateStep(recipe, Run(recipe, w, es[..n]).snap, es[n].copy).1 != Rejected
  }

  /** Every repetition is of an accepted duplicate that came before it. */
  ghost predicate RepeatsAccepted(recipe: Recipe, w: World, ds: seq<Delivery>) {
    ds != [] ==>
      var init, last := ds[..|ds| - 1], ds[|ds| - 1];
      RepeatsAccepted(recipe, w, init) && (last.Again? ==> AcceptedCopy(recipe, w, FreshOf(init), last.first))
  }

  /** The state after all deliveries, each handled as it comes. */
  ghost function Received(recipe: Recipe, w: World, ds: seq<Delivery>): World
    requires RepeatsAccepted(recipe, w, ds)
  {
    if ds == [] then w
    else
      var init, last := ds[..|ds| - 1], ds[|ds| - 1];
      Step(recipe, Received(recipe, w, init), if last.Fresh? then last.event else FreshOf(init)[last.first])
  }

  lemma {:induction false} RunSplit(recipe: Recipe, w: World, a: seq<Event>, b: seq<Event>)
    ensures Run(recipe, w, a + b) == Run(recipe, Run(recipe, w, a), b)
  {
    if b == [] {
      assert a + b == a;
    } else {
      assert (a + b)[..|a + b| - 1] == a + b[..|b| - 1];
      RunSplit(recipe, w, a, b[..|b| - 1]);
    }
  }

  lemma RunAround(recipe: Recipe, w: World, es: seq<Event>, n: nat)
    requires n < |es|
    ensures Run(recipe, w, es) == Run(recipe, Step(recipe, Run(recipe, w, es[..n]), es[n]), es[n + 1..])
  {
    assert es[..n + 1] == es[..n] + [es[n]];
    assert es == es[..n + 1] + es[n + 1..];
    RunAppend(recipe, w, es[..n], es[n]);
    RunSplit(recipe, w, es[..n + 1], es[n + 1..]);
  }

  lemma IdleCopy(recipe: Recipe, w: World, request: DuplicateRequest)
    requires DuplicateStep(recipe, w.snap, request).0 == w.snap
    ensures Step(recipe, w, Copy(request)) == w
  {
  }

  /** Repeating an accepted duplicate after the rest of the run changes nothing. */
  lemma RepeatedAtEnd(recipe: Recipe, w: World, es: seq<Event>, n: nat)
    requires ServiceOnly(es) && AcceptedCopy(recipe, w, es, n)
    ensures Step(recipe, Run(recipe, w, es), es[n]) == Run(recipe, w, es)
  {
    var before, request := Run(recipe, w, es[..n]), es[n].copy;
    RunAround(recipe, w, es, n);
    ReplayNeverChanges(recipe, before, request, es[n + 1..]);
    IdleCopy(recipe, Run(recipe, w, es), request);
  }

  /** Repetitions of accepted duplicates do not matter, wherever they arrive among patches and duplicates,
      accepted or not: the state is the one after the fresh requests alone. */
  lemma {:induction false} RepetitionsDoNotMatter(recipe: Recipe, w: World, ds: seq<Delivery>)
    requires ServiceOnly(FreshOf(ds)) && RepeatsAccepted(recipe, w, ds)
    ensures Received(recipe, w, ds) == Run(recipe, w, FreshOf(ds))
  {
    if ds != [] {
      var init, last := ds[..|ds| - 1], ds[|ds| - 1];
      ServiceOnlyPrefix(init, last);
      RepetitionsDoNotMatter(recipe, w, init);
      if last.Fresh? {
        RunAppend(recipe, w, FreshOf(init), last.event);
      } else {
        RepeatedAtEnd(recipe, w, FreshOf(init), last.first);
      }
    }
  }

  lemma ServiceOnlyPrefix(init: seq<Delivery>, last: Delivery)
    requires ServiceOnly(FreshOf(init + [last]))
    ensures ServiceOnly(FreshOf(init))
  {
    var ds := init + [last];
    assert ds[..|ds| - 1] == init;
    forall i | 0 <= i < |FreshOf(init)| ensures FreshOf(init)[i].Patch? || FreshOf(init)[i].Copy? {
      assert FreshOf(ds)[i] == FreshOf(init)[i];
    }
  }

  /** Replicas that start equal and receive the same fresh requests in the same order are equal, whatever
      either of them receives again. */
  lemma ReplicasUnderReplay(recipe: Recipe, w: World, xs: seq<Delivery>, ys: seq<Delivery>)
    requires FreshOf(xs) == FreshOf(ys) && ServiceOnly(FreshOf(xs))
    requires RepeatsAccepted(recipe, w, xs) && RepeatsAccepted(recipe, w, ys)
    ensures Received(recipe, w, xs) == Received(recipe, w, ys)
  {
    RepetitionsDoNotMatter(recipe, w, xs);
    RepetitionsDoNotMatter(recipe, w, ys);
  }
}
