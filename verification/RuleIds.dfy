/**
 Variable-length RuleIDs (section 6 of RFC 8724): a value and the number of bits it is
 written in. A RuleID is a path in a binary tree, and two of them can live in
 one context only when neither path is a prefix of the other.
 */
module RuleIds {
  import opened Bits
  import opened Wrappers
  import opened Sorting

  datatype RuleId = RuleId(value: u64, length: nat)

  const MAX_LENGTH: nat := 32

  /** An explicit RuleID of 1 to 32 bits whose value fits its length. */
  predicate ValidSpec(id: RuleId) {
    1 <= id.length <= MAX_LENGTH && id.value < Pow2(id.length)
  }

  /** A management selector: 1 to 64 bits. */
  predicate ValidSelector(id: RuleId) {
    1 <= id.length <= 64 && id.value < Pow2(id.length)
  }

  lemma SpecIsSelector(id: RuleId)
    requires ValidSpec(id)
    ensures ValidSelector(id) && id.value <= U32_MAX
  {
    Pow2Monotone(id.length, 32);
    Pow2Values();
  }

  /** The validation of an explicit RuleID: length, uint32 range, then fit. */
  function NewSpec(value: u64, length: nat): (r: Option<RuleId>)
    ensures r.Some? <==> ValidSpec(RuleId(value, length))
    ensures r.Some? ==> r.value == RuleId(value, length)
  {
    if !(1 <= length <= 32) then None
    else if value > U32_MAX then
      assert !ValidSpec(RuleId(value, length)) by { Pow2Monotone(length, 32); Pow2Values(); }
      None
    else
      assert ShiftLeft(1, length) == Pow2(length) by { ShiftLeftExact(1, 1, length); }
      if value >= ShiftLeft(1, length) then None else Some(RuleId(value, length))
  }

  /** Whether the bits of `prefix` begin the bits of `id`. */
  predicate IsPrefix(prefix: RuleId, id: RuleId)
    requires id.length < prefix.length + 64
  {
    if prefix.length > id.length then false
    else ShiftRight(id.value, id.length - prefix.length) == prefix.value
  }

  /** Whether either RuleID is a prefix of the other. */
  predicate Overlaps(left: RuleId, right: RuleId)
    requires left.length < right.length + 64 && right.length < left.length + 64
  {
    IsPrefix(left, right) || IsPrefix(right, left)
  }

  /** Length first, then value: the order of RuleIDs in a context and of allocation. */
  function IdKey(id: RuleId): Key {
    Key(id.length, id.value)
  }

  // ---------- the tree reading of RuleIDs ----------

  /** The bits of a RuleID as they are written, most significant first. */
  function BitString(value: nat, length: nat): (bits: seq<bool>)
    ensures |bits| == length
  {
    if length == 0 then [] else BitString(value / 2, length - 1) + [value % 2 == 1]
  }

  lemma {:induction false} BitStringInjective(a: nat, b: nat, length: nat)
    requires a < Pow2(length) && b < Pow2(length)
    requires BitString(a, length) == BitString(b, length)
    ensures a == b
  {
    if length > 0 {
      var s, t := BitString(a, length), BitString(b, length);
      assert s[..length - 1] == BitString(a / 2, length - 1);
      assert t[..length - 1] == BitString(b / 2, length - 1);
      assert s[length - 1] == t[length - 1];
      BitStringInjective(a / 2, b / 2, length - 1);
    }
  }

  /** The shift test on numbers is the prefix relation on bit strings. */
  lemma {:induction false} PrefixIsBitPrefix(prefix: RuleId, id: RuleId)
    requires ValidSelector(prefix) && ValidSelector(id)
    ensures IsPrefix(prefix, id) <==>
            BitString(prefix.value, prefix.length) <= BitString(id.value, id.length)
    decreases id.length
  {
    var p, v := BitString(prefix.value, prefix.length), BitString(id.value, id.length);
    if prefix.length > id.length {
    } else if prefix.length == id.length {
      if p <= v {
        assert p == v;
        BitStringInjective(prefix.value, id.value, id.length);
      }
    } else {
      var parent := RuleId(id.value / 2, id.length - 1);
      PrefixIsBitPrefix(prefix, parent);
      var s := id.length - prefix.length;
      HalveThenDivide(id.value, s);
      var w := BitString(parent.value, parent.length);
      assert v == w + [id.value % 2 == 1];
      assert p <= v <==> p <= w;
    }
  }

  lemma HalveThenDivide(x: nat, s: nat)
    requires s >= 1
    ensures x / Pow2(s) == (x / 2) / Pow2(s - 1)
  {
    var d, q := Pow2(s - 1), x / Pow2(s);
    QuotientIs(x, Pow2(s), q);
    assert Pow2(s) == 2 * d;
    assert 2 * (q * d) <= x < 2 * ((q + 1) * d);
    QuotientIs(x / 2, d, q);
  }

  /** Sharing a leaf below is the same as overlapping: two prefixes of one RuleID overlap. */
  lemma CommonExtensionOverlaps(a: RuleId, b: RuleId, leaf: RuleId)
    requires ValidSelector(a) && ValidSelector(b) && ValidSelector(leaf)
    requires IsPrefix(a, leaf) && IsPrefix(b, leaf)
    ensures Overlaps(a, b)
  {
    PrefixIsBitPrefix(a, leaf);
    PrefixIsBitPrefix(b, leaf);
    PrefixIsBitPrefix(a, b);
    PrefixIsBitPrefix(b, a);
    var s, t := BitString(a.value, a.length), BitString(b.value, b.length);
    var v := BitString(leaf.value, leaf.length);
    assert s == v[..a.length] && t == v[..b.length];
  }

  /** A prefix of a prefix is a prefix. */
  lemma PrefixTransitive(a: RuleId, b: RuleId, c: RuleId)
    requires ValidSelector(a) && ValidSelector(b) && ValidSelector(c)
    requires IsPrefix(a, b) && IsPrefix(b, c)
    ensures IsPrefix(a, c)
  {
    PrefixIsBitPrefix(a, b);
    PrefixIsBitPrefix(b, c);
    PrefixIsBitPrefix(a, c);
  }

  /** What extends a member of a subtree and overlaps nothing but that member stays apart. */
  lemma OverlapOfExtension(a: RuleId, b: RuleId, c: RuleId)
    requires ValidSelector(a) && ValidSelector(b) && ValidSelector(c)
    requires IsPrefix(a, b) && Overlaps(b, c)
    ensures Overlaps(a, c)
  {
    if IsPrefix(b, c) {
      PrefixTransitive(a, b, c);
    } else {
      CommonExtensionOverlaps(a, c, b);
    }
  }

  // ---------- leaves as intervals ----------

  /** First leaf at `depth` in the subtree of `id`. */
  function FirstLeaf(id: RuleId, depth: nat): nat
    requires id.length <= depth
  {
    id.value * Pow2(depth - id.length)
  }

  /** One past the last leaf at `depth` in the subtree of `id`. */
  function EndLeaf(id: RuleId, depth: nat): nat
    requires id.length <= depth
  {
    (id.value + 1) * Pow2(depth - id.length)
  }

  /** A subtree is an interval of leaves. */
  lemma PrefixIsInterval(id: RuleId, leaf: RuleId)
    requires 1 <= id.length <= leaf.length <= 64
    ensures IsPrefix(id, leaf) <==> FirstLeaf(id, leaf.length) <= leaf.value < EndLeaf(id, leaf.length)
  {
    QuotientIs(leaf.value, Pow2(leaf.length - id.length), id.value);
  }

  lemma DepthBound(depth: nat)
    requires depth <= MAX_LENGTH
    ensures Pow2(depth) <= U32_MAX + 1
  {
    Pow2Monotone(depth, 32);
    Pow2Values();
  }

  lemma SubtreeInRange(id: RuleId, depth: nat)
    requires ValidSpec(id) && id.length <= depth <= MAX_LENGTH
    ensures EndLeaf(id, depth) <= Pow2(depth)
    ensures EndLeaf(id, depth) == FirstLeaf(id, depth) + Pow2(depth - id.length)
    ensures Pow2(depth) <= U32_MAX + 1
  {
    DepthBound(depth);
    var below := depth - id.length;
    BlockBelow(id.value, id.length, below);
    assert id.length + below == depth;
  }
}
