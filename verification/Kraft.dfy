/**
 The counting law of the RuleID tree. Every RuleID of the namespace takes 2^(depth - length)
 of the leaves at the deepest allowed length; prefix-free RuleIDs take disjoint leaves, so the
 sum says how full the namespace is, and allocation fails exactly when it is full.
 */
module Kraft {
  import opened Bits
  import opened Wrappers
  import opened RuleIds
  import opened Allocation

  predicate PrefixFree(occupied: seq<RuleId>)
    requires AllValid(occupied)
  {
    forall i, j :: 0 <= i < j < |occupied| ==> !Overlaps(occupied[i], occupied[j])
  }

  /** What the context loader establishes about the RuleIDs of a context with this namespace. */
  ghost predicate Settled(ns: Namespace, occupied: seq<RuleId>) {
    WellShaped(ns) && AllValid(occupied) && PrefixFree(occupied) && !Collides(ns, occupied)
  }

  /** The deepest allowed length. */
  ghost predicate IsDepth(ns: Namespace, depth: nat) {
    && WellShaped(ns)
    && depth in ns.allowedLengths
    && forall l :: l in ns.allowedLengths ==> l <= depth
  }

  function Weight(ns: Namespace, id: RuleId, depth: nat): nat
    requires IsDepth(ns, depth)
  {
    if Accepts(ns, id) then Pow2(depth - id.length) else 0
  }

  function KraftSum(ns: Namespace, occupied: seq<RuleId>, depth: nat): nat
    requires IsDepth(ns, depth) && AllValid(occupied)
  {
    if occupied == [] then 0
    else KraftSum(ns, occupied[..|occupied| - 1], depth) + Weight(ns, occupied[|occupied| - 1], depth)
  }

  function Capacity(ns: Namespace, depth: nat): nat
    requires IsDepth(ns, depth)
  {
    Pow2(depth - ns.prefix.length)
  }

  // ---------- leaves as finite sets ----------

  function LeafSet(a: int, b: int): (leaves: set<int>)
    requires a <= b
    ensures forall c :: c in leaves <==> a <= c < b
    ensures |leaves| == b - a
    decreases b - a
  {
    if a == b then {} else LeafSet(a, b - 1) + {b - 1}
  }

  lemma FullSubset(a: set<int>, b: set<int>)
    requires a <= b
    ensures |a| <= |b|
    ensures |a| == |b| ==> a == b
  {
    assert b == a + (b - a);
    assert |b| == |a| + |b - a|;
  }

  lemma SubtreeOrder(id: RuleId, depth: nat)
    requires ValidSpec(id) && depth <= MAX_LENGTH
    ensures id.length <= depth ==> FirstLeaf(id, depth) < EndLeaf(id, depth)
  {
    if id.length <= depth {
      SubtreeInRange(id, depth);
    }
  }

  /** The leaves at `depth` below some RuleID of the namespace. */
  ghost function Covered(ns: Namespace, occupied: seq<RuleId>, depth: nat): set<int>
    requires IsDepth(ns, depth) && AllValid(occupied)
  {
    if occupied == [] then {}
    else
      var last := occupied[|occupied| - 1];
      SubtreeOrder(last, depth);
      Covered(ns, occupied[..|occupied| - 1], depth)
      + (if Accepts(ns, last) then LeafSet(FirstLeaf(last, depth), EndLeaf(last, depth)) else {})
  }

  ghost predicate Above(ns: Namespace, id: RuleId, leaf: int, depth: nat)
    requires IsDepth(ns, depth)
  {
    Accepts(ns, id) && FirstLeaf(id, depth) <= leaf < EndLeaf(id, depth)
  }

  lemma {:induction false} CoveredMeaning(ns: Namespace, occupied: seq<RuleId>, depth: nat, leaf: int)
    requires IsDepth(ns, depth) && AllValid(occupied)
    ensures leaf in Covered(ns, occupied, depth) <==>
            exists k :: 0 <= k < |occupied| && Above(ns, occupied[k], leaf, depth)
  {
    if occupied != [] {
      var init, last := occupied[..|occupied| - 1], occupied[|occupied| - 1];
      CoveredMeaning(ns, init, depth, leaf);
      assert forall k :: 0 <= k < |init| ==> init[k] == occupied[k];
    }
  }

  /** A leaf above which an accepted RuleID stands is a RuleID extending it. */
  lemma AboveIsPrefix(ns: Namespace, id: RuleId, leaf: int, depth: nat)
    requires IsDepth(ns, depth) && ValidSpec(id) && Above(ns, id, leaf, depth)
    ensures 0 <= leaf < Pow2(depth) <= U32_MAX + 1
    ensures ValidSpec(RuleId(leaf, depth)) && IsPrefix(id, RuleId(leaf, depth))
    ensures IsPrefix(ns.prefix, RuleId(leaf, depth))
  {
    SubtreeInRange(id, depth);
    BlockBelow(id.value, id.length, depth - id.length);
    var l := RuleId(leaf, depth);
    PrefixIsInterval(id, l);
    SpecIsSelector(id);
    SpecIsSelector(l);
    SpecIsSelector(ns.prefix);
    PrefixTransitive(ns.prefix, id, l);
  }

  /** Prefix-free RuleIDs cover disjoint leaves, so the sum counts the covered leaves. */
  lemma {:induction false} CoveredSize(ns: Namespace, occupied: seq<RuleId>, depth: nat)
    requires IsDepth(ns, depth) && AllValid(occupied) && PrefixFree(occupied)
    ensures |Covered(ns, occupied, depth)| == KraftSum(ns, occupied, depth)
  {
    if occupied != [] {
      var init, last := occupied[..|occupied| - 1], occupied[|occupied| - 1];
      CoveredSize(ns, init, depth);
      if Accepts(ns, last) {
        SubtreeInRange(last, depth);
        var new_ := LeafSet(FirstLeaf(last, depth), EndLeaf(last, depth));
        forall leaf | leaf in new_ ensures leaf !in Covered(ns, init, depth) {
          DisjointFromLast(ns, occupied, depth, leaf);
        }
        assert Covered(ns, init, depth) !! new_;
      }
    }
  }

  lemma DisjointFromLast(ns: Namespace, occupied: seq<RuleId>, depth: nat, leaf: int)
    requires IsDepth(ns, depth) && AllValid(occupied) && PrefixFree(occupied) && occupied != []
    requires Above(ns, occupied[|occupied| - 1], leaf, depth)
    ensures leaf !in Covered(ns, occupied[..|occupied| - 1], depth)
  {
    var init, last := occupied[..|occupied| - 1], occupied[|occupied| - 1];
    CoveredMeaning(ns, init, depth, leaf);
    if leaf in Covered(ns, init, depth) {
      var k :| 0 <= k < |init| && Above(ns, init[k], leaf, depth);
      assert occupied[k] == init[k];
      AboveIsPrefix(ns, init[k], leaf, depth);
      AboveIsPrefix(ns, last, leaf, depth);
      SpecIsSelector(init[k]);
      SpecIsSelector(last);
      SpecIsSelector(RuleId(leaf, depth));
      CommonExtensionOverlaps(init[k], last, RuleId(leaf, depth));
    }
  }

  ghost function NamespaceLeaves(ns: Namespace, depth: nat): set<int>
    requires IsDepth(ns, depth)
  {
    SubtreeOrder(ns.prefix, depth);
    LeafSet(FirstLeaf(ns.prefix, depth), EndLeaf(ns.prefix, depth))
  }

  lemma CoveredInNamespace(ns: Namespace, occupied: seq<RuleId>, depth: nat)
    requires IsDepth(ns, depth) && AllValid(occupied)
    ensures Covered(ns, occupied, depth) <= NamespaceLeaves(ns, depth)
    ensures |NamespaceLeaves(ns, depth)| == Capacity(ns, depth)
  {
    forall leaf | leaf in Covered(ns, occupied, depth) ensures leaf in NamespaceLeaves(ns, depth) {
      CoveredMeaning(ns, occupied, depth, leaf);
      var k :| 0 <= k < |occupied| && Above(ns, occupied[k], leaf, depth);
      AboveInNamespace(ns, occupied[k], leaf, depth);
    }
    SubtreeInRange(ns.prefix, depth);
  }

  lemma AboveInNamespace(ns: Namespace, id: RuleId, leaf: int, depth: nat)
    requires IsDepth(ns, depth) && ValidSpec(id) && Above(ns, id, leaf, depth)
    ensures FirstLeaf(ns.prefix, depth) <= leaf < EndLeaf(ns.prefix, depth)
  {
    AboveIsPrefix(ns, id, leaf, depth);
    PrefixIsInterval(ns.prefix, RuleId(leaf, depth));
  }

  /** The Kraft inequality, and when it is an equality. */
  lemma KraftBound(ns: Namespace, occupied: seq<RuleId>, depth: nat)
    requires IsDepth(ns, depth) && AllValid(occupied) && PrefixFree(occupied)
    ensures KraftSum(ns, occupied, depth) <= Capacity(ns, depth)
    ensures KraftSum(ns, occupied, depth) == Capacity(ns, depth) <==>
            Covered(ns, occupied, depth) == NamespaceLeaves(ns, depth)
  {
    CoveredSize(ns, occupied, depth);
    CoveredInNamespace(ns, occupied, depth);
    FullSubset(Covered(ns, occupied, depth), NamespaceLeaves(ns, depth));
  }

  lemma SameLengthPrefix(a: RuleId, b: RuleId)
    requires a.length == b.length && Overlaps(a, b)
    ensures a == b && IsPrefix(a, b)
  {
    QuotientIs(a.value, 1, a.value);
    QuotientIs(b.value, 1, b.value);
    assert Pow2(0) == 1;
  }

  /** In a settled context a leaf at the deepest length is blocked only from above. */
  lemma BlockedIsCovered(ns: Namespace, occupied: seq<RuleId>, depth: nat, leaf: RuleId)
    requires Settled(ns, occupied) && IsDepth(ns, depth) && leaf.length == depth
    requires ValidSpec(leaf) && IsPrefix(ns.prefix, leaf) && Blocked(occupied, leaf)
    ensures leaf.value in Covered(ns, occupied, depth)
  {
    var k :| 0 <= k < |occupied| && Overlaps(occupied[k], leaf);
    var id := occupied[k];
    SpecIsSelector(id);
    SpecIsSelector(leaf);
    SpecIsSelector(ns.prefix);
    OverlapOfExtension(ns.prefix, leaf, id);
    assert Accepts(ns, id);
    if id.length == depth {
      SameLengthPrefix(id, leaf);
    }
    PrefixIsInterval(id, leaf);
    assert Above(ns, id, leaf.value, depth);
    CoveredMeaning(ns, occupied, depth, leaf.value);
  }

  /** A RuleID of the namespace whose first leaf is covered is blocked. */
  lemma CoveredIsBlocked(ns: Namespace, occupied: seq<RuleId>, depth: nat, id: RuleId)
    requires Settled(ns, occupied) && IsDepth(ns, depth) && ValidSpec(id) && Accepts(ns, id)
    requires Covered(ns, occupied, depth) == NamespaceLeaves(ns, depth)
    ensures Blocked(occupied, id)
  {
    var leaf := FirstLeaf(id, depth);
    SubtreeInRange(id, depth);
    assert Above(ns, id, leaf, depth);
    AboveIsPrefix(ns, id, leaf, depth);
    var l := RuleId(leaf, depth);
    PrefixIsInterval(ns.prefix, l);
    assert leaf in Covered(ns, occupied, depth);
    CoveredMeaning(ns, occupied, depth, leaf);
    var k :| 0 <= k < |occupied| && Above(ns, occupied[k], leaf, depth);
    AboveIsPrefix(ns, occupied[k], leaf, depth);
    SpecIsSelector(occupied[k]);
    SpecIsSelector(id);
    SpecIsSelector(l);
    CommonExtensionOverlaps(occupied[k], id, l);
  }

  lemma NoFreeLeafMeansFull(ns: Namespace, occupied: seq<RuleId>, depth: nat)
    requires Settled(ns, occupied) && IsDepth(ns, depth)
    requires forall id :: !FreeLeaf(ns, occupied, id)
    ensures NamespaceLeaves(ns, depth) <= Covered(ns, occupied, depth)
  {
    forall leaf | leaf in NamespaceLeaves(ns, depth) ensures leaf in Covered(ns, occupied, depth) {
      LeafOfNamespace(ns, depth, leaf);
      assert !FreeLeaf(ns, occupied, RuleId(leaf, depth));
      BlockedIsCovered(ns, occupied, depth, RuleId(leaf, depth));
    }
  }

  lemma LeafOfNamespace(ns: Namespace, depth: nat, leaf: int)
    requires IsDepth(ns, depth) && leaf in NamespaceLeaves(ns, depth)
    ensures 0 <= leaf < Pow2(depth) <= U32_MAX + 1
    ensures ValidSpec(RuleId(leaf, depth)) && Accepts(ns, RuleId(leaf, depth))
  {
    SubtreeInRange(ns.prefix, depth);
    BlockBelow(ns.prefix.value, ns.prefix.length, depth - ns.prefix.length);
    PrefixIsInterval(ns.prefix, RuleId(leaf, depth));
  }

  /** Allocation in a settled context is exhausted exactly when the Kraft sum reaches the capacity. */
  lemma ExhaustedIffFull(ns: Namespace, occupied: seq<RuleId>, depth: nat, r: Result<RuleId, TreeError>)
    requires Settled(ns, occupied) && IsDepth(ns, depth) && Outcome(ns, occupied, r)
    ensures r == Err(Exhausted) <==> KraftSum(ns, occupied, depth) == Capacity(ns, depth)
    ensures r.Ok? || r == Err(Exhausted)
  {
    KraftBound(ns, occupied, depth);
    CoveredInNamespace(ns, occupied, depth);
    if r == Err(Exhausted) {
      NoFreeLeafMeansFull(ns, occupied, depth);
    } else if Covered(ns, occupied, depth) == NamespaceLeaves(ns, depth) {
      CoveredIsBlocked(ns, occupied, depth, r.value);
    }
  }

  // ---------- runs of allocate-then-insert ----------

  /** `after` is `before` with `id` put in somewhere, as a sorted context inserts it. */
  ghost predicate InsertedAt(before: seq<RuleId>, after: seq<RuleId>, id: RuleId, k: nat) {
    k <= |before| && after == before[..k] + [id] + before[k..]
  }

  lemma {:induction false} KraftSumAppend(ns: Namespace, a: seq<RuleId>, b: seq<RuleId>, depth: nat)
    requires IsDepth(ns, depth) && AllValid(a) && AllValid(b)
    ensures AllValid(a + b)
    ensures KraftSum(ns, a + b, depth) == KraftSum(ns, a, depth) + KraftSum(ns, b, depth)
  {
    if b == [] {
      assert a + b == a;
    } else {
      var init := b[..|b| - 1];
      KraftSumAppend(ns, a, init, depth);
      assert (a + b)[..|a + b| - 1] == a + init;
    }
  }

  /** Inserting a RuleID that overlaps none keeps the list prefix-free. */
  lemma InsertPrefixFree(before: seq<RuleId>, after: seq<RuleId>, id: RuleId, k: nat)
    requires AllValid(before) && PrefixFree(before) && ValidSpec(id) && !Blocked(before, id)
    requires InsertedAt(before, after, id, k)
    ensures AllValid(after) && PrefixFree(after)
  {
    forall i | 0 <= i < |after| ensures ValidSpec(after[i]) {
      assert after[i] == if i < k then before[i] else if i == k then id else before[i - 1];
    }
    forall i, j | 0 <= i < j < |after| ensures !Overlaps(after[i], after[j]) {
      assert after[i] == if i < k then before[i] else if i == k then id else before[i - 1];
      assert after[j] == if j < k then before[j] else if j == k then id else before[j - 1];
    }
  }

  lemma InsertKeepsNamespace(ns: Namespace, before: seq<RuleId>, after: seq<RuleId>, id: RuleId, k: nat)
    requires WellShaped(ns) && AllValid(before) && AllValid(after) && Accepts(ns, id)
    requires InsertedAt(before, after, id, k)
    ensures Collides(ns, after) ==> Collides(ns, before)
  {
    if !Collides(ns, before) {
      forall i | 0 <= i < |after| ensures !(Overlaps(after[i], ns.prefix) && !Accepts(ns, after[i])) {
        assert after[i] == if i < k then before[i] else if i == k then id else before[i - 1];
      }
    }
  }

  lemma InsertAddsWeight(ns: Namespace, before: seq<RuleId>, after: seq<RuleId>, id: RuleId, k: nat, depth: nat)
    requires IsDepth(ns, depth) && AllValid(before) && AllValid(after) && ValidSpec(id)
    requires InsertedAt(before, after, id, k)
    ensures KraftSum(ns, after, depth) == KraftSum(ns, before, depth) + Weight(ns, id, depth)
  {
    KraftSumAppend(ns, before[..k], [id], depth);
    KraftSumAppend(ns, before[..k] + [id], before[k..], depth);
    KraftSumAppend(ns, before[..k], before[k..], depth);
    assert before == before[..k] + before[k..];
    assert [id][..0] == [];
  }

  /** Installing the allocated RuleID keeps the context settled. */
  lemma InstallKeepsSettled(ns: Namespace, before: seq<RuleId>, after: seq<RuleId>, id: RuleId, k: nat)
    requires Settled(ns, before) && FreeLeaf(ns, before, id)
    requires InsertedAt(before, after, id, k)
    ensures Settled(ns, after)
  {
    InsertPrefixFree(before, after, id, k);
    InsertKeepsNamespace(ns, before, after, id, k);
  }

  ghost predicate AllocateAndInsert(ns: Namespace, before: seq<RuleId>, after: seq<RuleId>) {
    exists id, k :: Outcome(ns, before, Ok(id)) && InsertedAt(before, after, id, k)
  }

  lemma AllocationStep(ns: Namespace, before: seq<RuleId>, after: seq<RuleId>, depth: nat)
    requires Settled(ns, before) && IsDepth(ns, depth) && AllocateAndInsert(ns, before, after)
    ensures Settled(ns, after)
    ensures KraftSum(ns, before, depth) + 1 <= KraftSum(ns, after, depth)
  {
    var id, k :| Outcome(ns, before, Ok(id)) && InsertedAt(before, after, id, k);
    InstallKeepsSettled(ns, before, after, id, k);
    InsertAddsWeight(ns, before, after, id, k, depth);
  }

  ghost predicate AllocationRun(ns: Namespace, states: seq<seq<RuleId>>) {
    && states != []
    && forall i :: 0 < i < |states| ==> AllocateAndInsert(ns, states[i - 1], states[i])
  }

  lemma {:induction false} RunIsSettled(ns: Namespace, states: seq<seq<RuleId>>, depth: nat)
    requires AllocationRun(ns, states) && Settled(ns, states[0]) && IsDepth(ns, depth)
    ensures Settled(ns, states[|states| - 1])
    ensures KraftSum(ns, states[0], depth) + |states| - 1 <= KraftSum(ns, states[|states| - 1], depth)
  {
    if |states| > 1 {
      var n := |states| - 1;
      var prefix := states[..n];
      assert forall i :: 0 <= i < n ==> prefix[i] == states[i];
      RunIsSettled(ns, prefix, depth);
      AllocationStep(ns, states[n - 1], states[n], depth);
    }
  }

  /** Over any run the context stays settled; the run has at most as many allocations as there were
      free leaves at its start, and the next allocation succeeds exactly while leaves remain. */
  lemma RunIsBounded(ns: Namespace, states: seq<seq<RuleId>>, depth: nat, r: Result<RuleId, TreeError>)
    requires AllocationRun(ns, states) && Settled(ns, states[0]) && IsDepth(ns, depth)
    requires Outcome(ns, states[|states| - 1], r)
    ensures Settled(ns, states[|states| - 1])
    ensures |states| - 1 <= Capacity(ns, depth) - KraftSum(ns, states[0], depth)
    ensures r.Ok? <==> KraftSum(ns, states[|states| - 1], depth) < Capacity(ns, depth)
    ensures r.Err? ==> r == Err(Exhausted)
  {
    RunIsSettled(ns, states, depth);
    KraftBound(ns, states[|states| - 1], depth);
    ExhaustedIffFull(ns, states[|states| - 1], depth, r);
  }
}
