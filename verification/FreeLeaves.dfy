/**
 What an allocation returns, told from the written bits of RuleIDs alone.
 */
module FreeLeaves {
  import opened Bits
  import opened Wrappers
  import opened RuleIds
  import opened Allocation

  ghost function Written(id: RuleId): seq<bool> { BitString(id.value, id.length) }

  /** One RuleID begins with the other. */
  ghost predicate Comparable(a: RuleId, b: RuleId) {
    Written(a) <= Written(b) || Written(b) <= Written(a)
  }

  ghost predicate Explicit(id: RuleId) {
    1 <= id.length <= 32 && id.value < Pow2(id.length)
  }

  /** Of an allowed length and beginning with the prefix. */
  ghost predicate LeafInBits(ns: Namespace, id: RuleId) {
    id.length in ns.allowedLengths && Written(ns.prefix) <= Written(id)
  }

  ghost predicate FreeInBits(ns: Namespace, occupied: seq<RuleId>, id: RuleId) {
    Explicit(id) && LeafInBits(ns, id) && forall k :: 0 <= k < |occupied| ==> !Comparable(occupied[k], id)
  }

  lemma OverlapsInBits(a: RuleId, b: RuleId)
    requires ValidSpec(a) && ValidSpec(b)
    ensures Overlaps(a, b) <==> Comparable(a, b)
  {
    SpecIsSelector(a);
    SpecIsSelector(b);
    PrefixIsBitPrefix(a, b);
    PrefixIsBitPrefix(b, a);
  }

  lemma AcceptsInBits(ns: Namespace, id: RuleId)
    requires WellShaped(ns) && ValidSpec(id)
    ensures Accepts(ns, id) <==> LeafInBits(ns, id)
  {
    SpecIsSelector(ns.prefix);
    SpecIsSelector(id);
    PrefixIsBitPrefix(ns.prefix, id);
  }

  lemma FreeMeaning(ns: Namespace, occupied: seq<RuleId>, id: RuleId)
    requires WellShaped(ns) && AllValid(occupied)
    ensures FreeLeaf(ns, occupied, id) <==> FreeInBits(ns, occupied, id)
  {
    if ValidSpec(id) {
      AcceptsInBits(ns, id);
      forall k | 0 <= k < |occupied| ensures Overlaps(occupied[k], id) <==> Comparable(occupied[k], id) {
        OverlapsInBits(occupied[k], id);
      }
    }
  }

  ghost predicate InputsExplicit(ns: Namespace, occupied: seq<RuleId>) {
    && Explicit(ns.prefix) && ns.allowedLengths != []
    && (forall l :: l in ns.allowedLengths ==> ns.prefix.length < l <= 32)
    && forall k :: 0 <= k < |occupied| ==> Explicit(occupied[k])
  }

  /** An occupied RuleID comparable with the prefix is no leaf of the namespace. */
  ghost predicate Foreign(ns: Namespace, occupied: seq<RuleId>) {
    exists k :: 0 <= k < |occupied| && Comparable(occupied[k], ns.prefix) && !LeafInBits(ns, occupied[k])
  }

  ghost predicate LeastInBits(ns: Namespace, occupied: seq<RuleId>, id: RuleId) {
    && FreeInBits(ns, occupied, id)
    && forall other :: FreeInBits(ns, occupied, other) ==>
         id.length < other.length || (id.length == other.length && id.value <= other.value)
  }

  /** What an allocation returns, case by case. */
  lemma OutcomeInBits(ns: Namespace, occupied: seq<RuleId>, r: Result<RuleId, TreeError>)
    requires Outcome(ns, occupied, r)
    ensures !InputsExplicit(ns, occupied) <==> r == Err(Invalid)
    ensures InputsExplicit(ns, occupied) && Foreign(ns, occupied) <==>
            r == Err(Collision(ns.prefix.value, ns.prefix.length))
    ensures InputsExplicit(ns, occupied) && !Foreign(ns, occupied) && (forall id :: !FreeInBits(ns, occupied, id)) <==>
            r == Err(Exhausted)
    ensures r.Ok? ==> InputsExplicit(ns, occupied) && !Foreign(ns, occupied) && LeastInBits(ns, occupied, r.value)
  {
    if WellShaped(ns) && AllValid(occupied) {
      forall k | 0 <= k < |occupied|
        ensures Overlaps(occupied[k], ns.prefix) <==> Comparable(occupied[k], ns.prefix)
        ensures Accepts(ns, occupied[k]) <==> LeafInBits(ns, occupied[k])
      {
        OverlapsInBits(occupied[k], ns.prefix);
        AcceptsInBits(ns, occupied[k]);
      }
      forall id ensures FreeLeaf(ns, occupied, id) <==> FreeInBits(ns, occupied, id) {
        FreeMeaning(ns, occupied, id);
      }
    }
  }
}
