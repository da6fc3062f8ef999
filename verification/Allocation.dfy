/** The interval form of a leaf allocator, proved to return what the tree reading promises (`Outcome`). */
module Allocation {
  import opened Bits
  import opened Wrappers
  import opened Sorting
  import opened RuleIds

  datatype Namespace = Namespace(prefix: RuleId, allowedLengths: seq<nat>)

  datatype TreeError = Invalid | Collision(value: u64, length: nat) | Exhausted

  // ---------- validation ----------

  function LengthKey(length: nat): Key { Key(length, 0) }

  /** Removes each element that repeats the one before it. */
  function Dedup(xs: seq<nat>): (r: seq<nat>)
    ensures |r| <= |xs| && (xs != [] ==> r != [] && r[|r| - 1] == xs[|xs| - 1])
    ensures forall x :: x in r <==> x in xs
  {
    if |xs| <= 1 then xs
    else
      var init := Dedup(xs[..|xs| - 1]);
      assert xs == xs[..|xs| - 1] + [xs[|xs| - 1]];
      if xs[|xs| - 2] == xs[|xs| - 1] then init else init + [xs[|xs| - 1]]
  }

  ghost predicate StrictlyIncreasing(xs: seq<nat>) {
    forall i, j :: 0 <= i < j < |xs| ==> xs[i] < xs[j]
  }

  lemma {:induction false} DedupSorted(xs: seq<nat>)
    requires forall i, j :: 0 <= i < j < |xs| ==> xs[i] <= xs[j]
    ensures StrictlyIncreasing(Dedup(xs))
  {
    if |xs| > 1 {
      DedupSorted(xs[..|xs| - 1]);
    }
  }

  /** The shape a profile must have: an explicit prefix and at least one depth strictly below it. */
  predicate WellShaped(ns: Namespace) {
    && ValidSpec(ns.prefix)
    && ns.allowedLengths != []
    && forall l :: l in ns.allowedLengths ==> ns.prefix.length < l <= MAX_LENGTH
  }

  function SortedLengths(lengths: seq<nat>): (r: seq<nat>)
    ensures StrictlyIncreasing(r)
    ensures forall l :: l in r <==> l in lengths
    ensures r == [] <==> lengths == []
  {
    var sorted := SortBy(LengthKey, lengths);
    SortSorts(LengthKey, lengths);
    SortPermutes(LengthKey, lengths);
    assert forall i, j :: 0 <= i < j < |sorted| ==> LengthKey(sorted[i]).AtMost(LengthKey(sorted[j]));
    DedupSorted(sorted);
    assert forall l :: l in sorted <==> l in lengths by {
      forall l { InMultiset(sorted, lengths, l); }
    }
    Dedup(sorted)
  }

  /** Checks the shape and returns the namespace with its depths increasing and distinct. */
  function Validate(ns: Namespace): (r: Option<Namespace>)
    ensures r.Some? <==> WellShaped(ns)
    ensures r.Some? ==> WellShaped(r.value) && r.value.prefix == ns.prefix
    ensures r.Some? ==> StrictlyIncreasing(r.value.allowedLengths)
    ensures r.Some? ==> forall l :: l in r.value.allowedLengths <==> l in ns.allowedLengths
  {
    var prefix := NewSpec(ns.prefix.value, ns.prefix.length);
    if prefix.None? then None
    else
      var lengths := SortedLengths(ns.allowedLengths);
      if lengths == [] then
        None
      else if exists l :: l in lengths && !(prefix.value.length + 1 <= l <= 32) then None
      else
        assert lengths[0] in ns.allowedLengths;
        Some(Namespace(prefix.value, lengths))
  }

  /** Whether `id` is a leaf of the namespace at one of its depths. */
  predicate Accepts(ns: Namespace, id: RuleId)
    requires WellShaped(ns)
  {
    id.length in ns.allowedLengths && IsPrefix(ns.prefix, id)
  }

  // ---------- specification in terms of the tree ----------

  predicate AllValid(occupied: seq<RuleId>) {
    forall k :: 0 <= k < |occupied| ==> ValidSpec(occupied[k])
  }

  predicate Collides(ns: Namespace, occupied: seq<RuleId>)
    requires WellShaped(ns) && AllValid(occupied)
  {
    exists k :: 0 <= k < |occupied| && Overlaps(occupied[k], ns.prefix) && !Accepts(ns, occupied[k])
  }

  ghost predicate Blocked(occupied: seq<RuleId>, id: RuleId)
    requires AllValid(occupied) && ValidSpec(id)
  {
    exists k :: 0 <= k < |occupied| && Overlaps(occupied[k], id)
  }

  /** A leaf of the namespace that no occupied RuleID is a prefix of, or prefixed by. */
  ghost predicate FreeLeaf(ns: Namespace, occupied: seq<RuleId>, id: RuleId)
    requires WellShaped(ns) && AllValid(occupied)
  {
    ValidSpec(id) && Accepts(ns, id) && !Blocked(occupied, id)
  }

  ghost predicate LeastFreeLeaf(ns: Namespace, occupied: seq<RuleId>, id: RuleId)
    requires WellShaped(ns) && AllValid(occupied)
  {
    && FreeLeaf(ns, occupied, id)
    && forall other :: FreeLeaf(ns, occupied, other) ==> IdKey(id).AtMost(IdKey(other))
  }

  /** What `allocate` promises, case by case and in the order the program reports them. */
  ghost predicate Outcome(ns: Namespace, occupied: seq<RuleId>, r: Result<RuleId, TreeError>) {
    if !WellShaped(ns) || !AllValid(occupied) then r == Err(Invalid)
    else if Collides(ns, occupied) then r == Err(Collision(ns.prefix.value, ns.prefix.length))
    else match r
      case Ok(id) => LeastFreeLeaf(ns, occupied, id)
      case Err(e) => e == Exhausted && forall id :: !FreeLeaf(ns, occupied, id)
  }

  /** The outcome is fixed by the set of occupied RuleIDs and the set of depths, not their order. */
  lemma OutcomeIgnoresOrder(ns: Namespace, lengths: seq<nat>, a: seq<RuleId>, b: seq<RuleId>,
                            r: Result<RuleId, TreeError>, s: Result<RuleId, TreeError>)
    requires forall id :: id in a <==> id in b
    requires forall l :: l in ns.allowedLengths <==> l in lengths
    requires Outcome(ns, a, r) && Outcome(ns.(allowedLengths := lengths), b, s)
    ensures r == s
  {
    var ms := ns.(allowedLengths := lengths);
    assert WellShaped(ns) == WellShaped(ms) by {
      assert ns.allowedLengths != [] ==> ns.allowedLengths[0] in lengths;
      assert lengths != [] ==> lengths[0] in ns.allowedLengths;
    }
    SameElements(a, b);
    SameElements(b, a);
    if WellShaped(ns) && AllValid(a) {
      assert Collides(ns, a) == Collides(ms, b) by {
        if Collides(ns, a) {
          var k :| 0 <= k < |a| && Overlaps(a[k], ns.prefix) && !Accepts(ns, a[k]);
          assert a[k] in b;
        }
        if Collides(ms, b) {
          var k :| 0 <= k < |b| && Overlaps(b[k], ns.prefix) && !Accepts(ms, b[k]);
          assert b[k] in a;
        }
      }
      forall id ensures FreeLeaf(ns, a, id) == FreeLeaf(ms, b, id) {
        if ValidSpec(id) {
          BlockedSame(a, b, id);
          BlockedSame(b, a, id);
        }
      }
      if r.Ok? && s.Ok? && !Collides(ns, a) {
        assert IdKey(r.value).AtMost(IdKey(s.value)) && IdKey(s.value).AtMost(IdKey(r.value));
      }
    }
  }

  lemma SameElements(a: seq<RuleId>, b: seq<RuleId>)
    requires forall id :: id in a <==> id in b
    ensures AllValid(a) ==> AllValid(b)
  {
    if AllValid(a) {
      forall k | 0 <= k < |b| ensures ValidSpec(b[k]) {
        assert b[k] in a;
      }
    }
  }

  lemma BlockedSame(a: seq<RuleId>, b: seq<RuleId>, id: RuleId)
    requires forall x :: x in a <==> x in b
    requires AllValid(a) && AllValid(b) && ValidSpec(id)
    ensures Blocked(a, id) ==> Blocked(b, id)
  {
    if Blocked(a, id) {
      var k :| 0 <= k < |a| && Overlaps(a[k], id);
      assert a[k] in b;
    }
  }

  // ---------- the interval algorithm ----------

  type Interval = (u64, u64)

  function IntervalKey(i: Interval): Key { Key(i.0, i.1) }

  ghost predicate Covers(intervals: seq<Interval>, leaf: int) {
    exists i :: 0 <= i < |intervals| && intervals[i].0 <= leaf < intervals[i].1
  }

  /** Leaves of the reserved subtree at `length`. */
  function CandidateRange(prefix: RuleId, length: nat): (r: Interval)
    requires ValidSpec(prefix) && prefix.length <= length <= MAX_LENGTH
    ensures r.0 == FirstLeaf(prefix, length) && r.1 == EndLeaf(prefix, length)
    ensures r.0 < r.1 <= Pow2(length) <= U32_MAX + 1
  {
    var suffix := length - prefix.length;
    SubtreeInRange(prefix, length);
    ShiftLeftExact(prefix.value, prefix.length, suffix);
    ShiftLeftExact(1, 1, suffix);
    var start := ShiftLeft(prefix.value, suffix);
    (start, start + ShiftLeft(1, suffix))
  }

  /** Leaves at `length` that the occupied `id` rules out: its subtree, or the one leaf above it. */
  function BlockOf(id: RuleId, length: nat): (r: Interval)
    requires ValidSpec(id) && 1 <= length <= MAX_LENGTH
    ensures r.0 < r.1
  {
    if id.length <= length then
      CandidateRange(id, length)
    else
      SpecIsSelector(id);
      var start := ShiftRight(id.value, id.length - length);
      (start, start + 1)
  }

  lemma BlockOfMeaning(id: RuleId, leaf: RuleId)
    requires ValidSpec(id) && 1 <= leaf.length <= MAX_LENGTH
    ensures var r := BlockOf(id, leaf.length); r.0 <= leaf.value < r.1 <==> Overlaps(id, leaf)
  {
    if id.length <= leaf.length {
      PrefixIsInterval(id, leaf);
      if id.length == leaf.length {
        PrefixIsInterval(leaf, id);
        assert Pow2(0) == 1;
      }
    }
  }

  /** Non-empty intervals in increasing order with a gap between neighbours. */
  ghost predicate Separated(intervals: seq<Interval>) {
    && (forall i :: 0 <= i < |intervals| ==> intervals[i].0 < intervals[i].1)
    && (forall i, j :: 0 <= i < j < |intervals| ==> intervals[i].1 < intervals[j].0)
  }

  lemma CoversPermute(xs: seq<Interval>, ys: seq<Interval>, leaf: int)
    requires multiset(xs) == multiset(ys)
    ensures Covers(xs, leaf) ==> Covers(ys, leaf)
  {
    if Covers(xs, leaf) {
      var i :| 0 <= i < |xs| && xs[i].0 <= leaf < xs[i].1;
      InMultiset(xs, ys, xs[i]);
    }
  }

  lemma CoversAppend(xs: seq<Interval>, x: Interval, leaf: int)
    ensures Covers(xs + [x], leaf) <==> Covers(xs, leaf) || x.0 <= leaf < x.1
  {
    var ys := xs + [x];
    assert ys[|xs|] == x;
    assert forall i :: 0 <= i < |xs| ==> ys[i] == xs[i];
  }

  /** The clipped intervals of the occupied RuleIDs, one push for each that meets the range. */
  method ClippedIntervals(range: Interval, occupied: seq<RuleId>, length: nat) returns (intervals: seq<Interval>)
    requires AllValid(occupied) && 1 <= length <= MAX_LENGTH
    requires range.0 < range.1 <= Pow2(length)
    ensures forall i :: 0 <= i < |intervals| ==> range.0 <= intervals[i].0 < intervals[i].1 <= range.1
    ensures forall leaf: u64 :: range.0 <= leaf < range.1 ==>
              (Covers(intervals, leaf) <==> Blocked(occupied, RuleId(leaf, length)))
  {
    intervals := [];
    var k := 0;
    while k < |occupied|
      invariant 0 <= k <= |occupied|
      invariant forall i :: 0 <= i < |intervals| ==> range.0 <= intervals[i].0 < intervals[i].1 <= range.1
      invariant forall leaf: u64 :: range.0 <= leaf < range.1 ==>
                  (Covers(intervals, leaf) <==> Blocked(occupied[..k], RuleId(leaf, length)))
    {
      var (start, end) := BlockOf(occupied[k], length);
      ghost var before := intervals;
      if end > range.0 && start < range.1 {
        var clipped := (if start > range.0 then start else range.0, if end < range.1 then end else range.1);
        intervals := intervals + [clipped];
      }
      forall leaf: u64 | range.0 <= leaf < range.1
        ensures Covers(intervals, leaf) <==> Blocked(occupied[..k + 1], RuleId(leaf, length))
      {
        BlockOfMeaning(occupied[k], RuleId(leaf, length));
        BlockedAppend(occupied, k, RuleId(leaf, length));
        if intervals != before {
          CoversAppend(before, intervals[|before|], leaf);
        }
      }
      k := k + 1;
    }
    assert occupied[..k] == occupied;
  }

  lemma BlockedAppend(occupied: seq<RuleId>, k: nat, id: RuleId)
    requires AllValid(occupied) && k < |occupied| && ValidSpec(id)
    ensures Blocked(occupied[..k + 1], id) <==> Blocked(occupied[..k], id) || Overlaps(occupied[k], id)
  {
    assert occupied[..k + 1][k] == occupied[k];
    assert forall i :: 0 <= i < k ==> occupied[..k + 1][i] == occupied[..k][i];
  }

  /** Clips, sorts, and merges touching or overlapping intervals in one pass. */
  method BlockedIntervals(range: Interval, occupied: seq<RuleId>, length: nat) returns (merged: seq<Interval>)
    requires AllValid(occupied) && 1 <= length <= MAX_LENGTH
    requires range.0 < range.1 <= Pow2(length)
    ensures Separated(merged)
    ensures forall leaf: u64 :: range.0 <= leaf < range.1 ==>
              (Covers(merged, leaf) <==> Blocked(occupied, RuleId(leaf, length)))
  {
    var clipped := ClippedIntervals(range, occupied, length);
    var intervals := SortBy(IntervalKey, clipped);
    SortSorts(IntervalKey, clipped);
    SortPermutes(IntervalKey, clipped);
    forall leaf ensures Covers(intervals, leaf) <==> Covers(clipped, leaf) {
      CoversPermute(intervals, clipped, leaf);
      CoversPermute(clipped, intervals, leaf);
    }
    forall i | 0 <= i < |intervals| ensures intervals[i].0 < intervals[i].1 {
      InMultiset(intervals, clipped, intervals[i]);
    }
    merged := MergeSorted(intervals);
  }

  /** Merges sorted intervals that touch or overlap. */
  method MergeSorted(intervals: seq<Interval>) returns (merged: seq<Interval>)
    requires Sorted(IntervalKey, intervals)
    requires forall i :: 0 <= i < |intervals| ==> intervals[i].0 < intervals[i].1
    ensures Separated(merged)
    ensures forall leaf :: Covers(merged, leaf) <==> Covers(intervals, leaf)
  {
    merged := [];
    var j := 0;
    while j < |intervals|
      invariant 0 <= j <= |intervals|
      invariant Separated(merged)
      invariant merged == [] <==> j == 0
      invariant merged != [] ==> merged[|merged| - 1].0 <= intervals[j - 1].0
      invariant forall leaf :: Covers(merged, leaf) <==> Covers(intervals[..j], leaf)
    {
      var (start, end) := intervals[j];
      assert j > 0 ==> IntervalKey(intervals[j - 1]).AtMost(IntervalKey(intervals[j]));
      ghost var before := merged;
      if merged != [] && start <= merged[|merged| - 1].1 {
        var last := merged[|merged| - 1];
        merged := merged[|merged| - 1 := (last.0, if last.1 > end then last.1 else end)];
        CoverageWidened(before, (start, end));
      } else {
        merged := merged + [(start, end)];
        CoverageAppended(before, (start, end));
      }
      assert intervals[..j + 1] == intervals[..j] + [intervals[j]];
      CoverageAppended(intervals[..j], intervals[j]);
      j := j + 1;
    }
    assert intervals[..j] == intervals;
  }

  lemma WidenLast(before: seq<Interval>, x: Interval, leaf: int)
    requires before != [] && x.0 < x.1
    requires before[|before| - 1].0 <= x.0 <= before[|before| - 1].1
    ensures var last := before[|before| - 1];
            var wide := (last.0, if last.1 > x.1 then last.1 else x.1);
            Covers(before[|before| - 1 := wide], leaf) <==> Covers(before, leaf) || x.0 <= leaf < x.1
  {
    var init, last := before[..|before| - 1], before[|before| - 1];
    var wide: Interval := (last.0, if last.1 > x.1 then last.1 else x.1);
    assert before == init + [last];
    assert before[|before| - 1 := wide] == init + [wide];
    CoversAppend(init, last, leaf);
    CoversAppend(init, wide, leaf);
  }

  lemma CoverageWidened(before: seq<Interval>, x: Interval)
    requires before != [] && x.0 < x.1
    requires before[|before| - 1].0 <= x.0 <= before[|before| - 1].1
    ensures var last := before[|before| - 1];
            var wide: Interval := (last.0, if last.1 > x.1 then last.1 else x.1);
            forall leaf :: Covers(before[|before| - 1 := wide], leaf) <==> Covers(before, leaf) || x.0 <= leaf < x.1
  {
    var last := before[|before| - 1];
    var wide: Interval := (last.0, if last.1 > x.1 then last.1 else x.1);
    forall leaf ensures Covers(before[|before| - 1 := wide], leaf) <==> Covers(before, leaf) || x.0 <= leaf < x.1 {
      WidenLast(before, x, leaf);
    }
  }

  lemma CoverageAppended(xs: seq<Interval>, x: Interval)
    ensures forall leaf :: Covers(xs + [x], leaf) <==> Covers(xs, leaf) || x.0 <= leaf < x.1
  {
    forall leaf ensures Covers(xs + [x], leaf) <==> Covers(xs, leaf) || x.0 <= leaf < x.1 {
      CoversAppend(xs, x, leaf);
    }
  }

  /** Scans for the first leaf of the range that lies in no interval. */
  method FirstFree(range: Interval, blocked: seq<Interval>) returns (r: Option<u64>)
    requires range.0 < range.1 && Separated(blocked)
    ensures r.None? ==> forall leaf :: range.0 <= leaf < range.1 ==> Covers(blocked, leaf)
    ensures r.Some? ==> range.0 <= r.value < range.1 && !Covers(blocked, r.value)
    ensures r.Some? ==> forall leaf :: range.0 <= leaf < r.value ==> Covers(blocked, leaf)
  {
    var candidate := range.0;
    var i := 0;
    while i < |blocked|
      invariant 0 <= i <= |blocked|
      invariant range.0 <= candidate < range.1
      invariant forall leaf :: range.0 <= leaf < candidate ==> Covers(blocked, leaf)
      invariant forall j :: 0 <= j < i ==> blocked[j].1 <= candidate
    {
      var (start, end) := blocked[i];
      if end <= candidate {
      } else if start > candidate {
        break;
      } else {
        forall leaf | candidate <= leaf < end ensures Covers(blocked, leaf) {
          assert blocked[i].0 <= leaf < blocked[i].1;
        }
        candidate := end;
        if candidate >= range.1 {
          return None;
        }
      }
      i := i + 1;
    }
    return Some(candidate);
  }

  /** Which leaves of one depth are free, in terms of the candidate range. */
  lemma FreeAtDepth(ns: Namespace, occupied: seq<RuleId>, id: RuleId)
    requires WellShaped(ns) && AllValid(occupied) && id.length in ns.allowedLengths
    ensures FreeLeaf(ns, occupied, id) <==>
            && CandidateRange(ns.prefix, id.length).0 <= id.value < CandidateRange(ns.prefix, id.length).1
            && !Blocked(occupied, id)
  {
    PrefixIsInterval(ns.prefix, id);
  }

  /** The loop body of the allocation: the lowest free pattern at one depth. */
  method FirstFreeAtDepth(ns: Namespace, occupied: seq<RuleId>, length: nat) returns (r: Option<RuleId>)
    requires WellShaped(ns) && AllValid(occupied) && length in ns.allowedLengths
    ensures r.None? ==> forall id :: FreeLeaf(ns, occupied, id) ==> id.length != length
    ensures r.Some? ==> FreeLeaf(ns, occupied, r.value) && r.value.length == length
    ensures r.Some? ==> forall id :: FreeLeaf(ns, occupied, id) && id.length == length ==> r.value.value <= id.value
  {
    var range := CandidateRange(ns.prefix, length);
    var blocked := BlockedIntervals(range, occupied, length);
    var free := FirstFree(range, blocked);
    forall id: RuleId | id.length == length
      ensures FreeLeaf(ns, occupied, id) <==> range.0 <= id.value < range.1 && !Covers(blocked, id.value)
    {
      FreeAtDepth(ns, occupied, id);
    }
    if free.Some? {
      return Some(RuleId(free.value, length));
    }
    return None;
  }

  /** Returns the first free valid leaf in tree order: shortest depth, then lowest pattern. */
  method Allocate(ns: Namespace, occupied: seq<RuleId>) returns (r: Result<RuleId, TreeError>)
    ensures Outcome(ns, occupied, r)
  {
    var validated := Validate(ns);
    if validated.None? || exists k :: 0 <= k < |occupied| && NewSpec(occupied[k].value, occupied[k].length).None? {
      return Err(Invalid);
    }
    assert AllValid(occupied);
    var namespace := validated.value;
    if exists k :: 0 <= k < |occupied| && Overlaps(occupied[k], namespace.prefix) && !Accepts(namespace, occupied[k]) {
      return Err(Collision(namespace.prefix.value, namespace.prefix.length));
    }
    r := ScanDepths(namespace, occupied);
    assert forall id :: FreeLeaf(namespace, occupied, id) <==> FreeLeaf(ns, occupied, id);
    assert !Collides(ns, occupied);
  }

  /** Tries the depths from the shortest. */
  method ScanDepths(ns: Namespace, occupied: seq<RuleId>) returns (r: Result<RuleId, TreeError>)
    requires WellShaped(ns) && AllValid(occupied) && StrictlyIncreasing(ns.allowedLengths)
    ensures r.Ok? ==> LeastFreeLeaf(ns, occupied, r.value)
    ensures r.Err? ==> r.error == Exhausted && forall id :: !FreeLeaf(ns, occupied, id)
  {
    var lengths := ns.allowedLengths;
    var d := 0;
    while d < |lengths|
      invariant 0 <= d <= |lengths|
      invariant forall id :: FreeLeaf(ns, occupied, id) ==> id.length !in lengths[..d]
    {
      var found := FirstFreeAtDepth(ns, occupied, lengths[d]);
      if found.Some? {
        forall other | FreeLeaf(ns, occupied, other) ensures IdKey(found.value).AtMost(IdKey(other)) {
          var e :| 0 <= e < |lengths| && lengths[e] == other.length;
          assert e < d ==> lengths[e] in lengths[..d];
        }
        return Ok(found.value);
      }
      assert lengths[..d + 1] == lengths[..d] + [lengths[d]];
      d := d + 1;
    }
    assert lengths[..d] == lengths;
    return Err(Exhausted);
  }
}
