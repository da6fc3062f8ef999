/**
 Writing overridden leaves into a copied rule. The loop of the program writes one leaf at a
 time; `PatchEntry` is the meaning of the whole list, entry by entry.
 */
module Overrides {
  import opened Bits
  import opened Wrappers
  import opened RuleModel
  import opened Paths

  datatype LeafValue = TargetBytes(bytes: seq<byte>) | MatchingIdentity(matching: MatchingOperator)
                     | CdaIdentity(cda: Cda)

  datatype Write = Write(entry: nat, leaf: Leaf, value: LeafValue)

  predicate KindMatches(w: Write) {
    match w.leaf
    case Target => w.value.TargetBytes?
    case MatchingLeaf => w.value.MatchingIdentity?
    case CdaLeaf => w.value.CdaIdentity?
  }

  /** Whether the entry has the leaf: a target can be replaced only where one exists. */
  predicate HasLeaf(e: Entry, leaf: Leaf) {
    leaf == Target ==> e.target.Bytes? || (e.target.Mapping? && e.target.list != [])
  }

  /** Replaces the target value with list index zero. */
  function WithTarget(t: TargetValue, bytes: seq<byte>): TargetValue {
    match t
    case NoTarget => t
    case Bytes(_) => Bytes(bytes)
    case Mapping(list) => if list == [] then t else Mapping(list[0 := bytes])
  }

  function SetLeaf(e: Entry, value: LeafValue): Entry {
    match value
    case TargetBytes(bytes) => e.(target := WithTarget(e.target, bytes))
    case MatchingIdentity(m) => e.(matching := m)
    case CdaIdentity(c) => e.(cda := c)
  }

  predicate Applicable(rule: Rule, w: Write) {
    && KindMatches(w)
    && (exists i :: 0 <= i < |rule.entries| && rule.entries[i].index == w.entry)
    && (forall i :: 0 <= i < |rule.entries| && rule.entries[i].index == w.entry ==> HasLeaf(rule.entries[i], w.leaf))
  }

  function WriteEntry(e: Entry, w: Write): Entry {
    if e.index == w.entry then SetLeaf(e, w.value) else e
  }

  function MapEntries(entries: seq<Entry>, f: Entry -> Entry): (r: seq<Entry>)
    ensures |r| == |entries|
    ensures forall i :: 0 <= i < |entries| ==> r[i] == f(entries[i])
  {
    seq(|entries|, i requires 0 <= i < |entries| => f(entries[i]))
  }

  /** Sets one leaf of the entry the path selects; a missing entry or leaf is an error. */
  function ApplyWrite(rule: Rule, w: Write): Option<Rule> {
    if Applicable(rule, w) then Some(rule.(entries := MapEntries(rule.entries, e => WriteEntry(e, w)))) else None
  }

  function ApplyWrites(rule: Rule, ws: seq<Write>): Option<Rule> {
    if ws == [] then Some(rule)
    else
      var before := ApplyWrites(rule, ws[..|ws| - 1]);
      if before.None? then None else ApplyWrite(before.value, ws[|ws| - 1])
  }

  /** The value a list of writes leaves in one leaf of one entry: the last one written. */
  function Lookup(ws: seq<Write>, entry: nat, leaf: Leaf): Option<LeafValue> {
    if ws == [] then None
    else if ws[|ws| - 1].entry == entry && ws[|ws| - 1].leaf == leaf then Some(ws[|ws| - 1].value)
    else Lookup(ws[..|ws| - 1], entry, leaf)
  }

  /** An entry with each of its three leaves replaced by what the list says about it, if anything. */
  function PatchEntry(e: Entry, ws: seq<Write>): Entry {
    var t, m, c := Lookup(ws, e.index, Target), Lookup(ws, e.index, MatchingLeaf), Lookup(ws, e.index, CdaLeaf);
    Entry(e.index, e.field, e.direction, e.length,
          if t.Some? && t.value.TargetBytes? then WithTarget(e.target, t.value.bytes) else e.target,
          if m.Some? && m.value.MatchingIdentity? then m.value.matching else e.matching,
          if c.Some? && c.value.CdaIdentity? then c.value.cda else e.cda)
  }

  lemma PatchThenWrite(e: Entry, ws: seq<Write>, w: Write)
    requires KindMatches(w)
    ensures WriteEntry(PatchEntry(e, ws), w) == PatchEntry(e, ws + [w])
    ensures HasLeaf(PatchEntry(e, ws), w.leaf) == HasLeaf(e, w.leaf)
  {
    assert (ws + [w])[..|ws|] == ws;
    var t := Lookup(ws, e.index, Target);
    forall leaf
      ensures Lookup(ws + [w], e.index, leaf) ==
              if w.entry == e.index && w.leaf == leaf then Some(w.value) else Lookup(ws, e.index, leaf)
    {
    }
    if e.target.Mapping? && e.target.list != [] && t.Some? && t.value.TargetBytes? && w.value.TargetBytes? {
      assert e.target.list[0 := t.value.bytes][0 := w.value.bytes] == e.target.list[0 := w.value.bytes];
    }
  }

  /** The list is applied exactly when each write fits the rule it starts from, and then every entry
      carries what the list says about it; identity, nature and order are untouched. */
  lemma {:induction false} ApplyWritesMeaning(rule: Rule, ws: seq<Write>)
    ensures ApplyWrites(rule, ws).Some? <==> forall k :: 0 <= k < |ws| ==> Applicable(rule, ws[k])
    ensures ApplyWrites(rule, ws).Some? ==>
              ApplyWrites(rule, ws).value == rule.(entries := MapEntries(rule.entries, e => PatchEntry(e, ws)))
  {
    if ws == [] {
      var patched := MapEntries(rule.entries, e => PatchEntry(e, ws));
      assert patched == rule.entries;
    } else {
      var init, w := ws[..|ws| - 1], ws[|ws| - 1];
      assert ws == init + [w];
      ApplyWritesMeaning(rule, init);
      assert forall k :: 0 <= k < |init| ==> init[k] == ws[k];
      if ApplyWrites(rule, init).Some? {
        var mid := ApplyWrites(rule, init).value;
        ApplicableKept(rule, init, w, mid);
        if Applicable(mid, w) {
          WritePatched(rule, init, w, mid);
        }
      }
    }
  }

  lemma ApplicableKept(rule: Rule, ws: seq<Write>, w: Write, mid: Rule)
    requires mid == rule.(entries := MapEntries(rule.entries, e => PatchEntry(e, ws)))
    ensures Applicable(mid, w) == Applicable(rule, w)
  {
    if KindMatches(w) {
      forall i | 0 <= i < |rule.entries|
        ensures mid.entries[i].index == rule.entries[i].index
        ensures HasLeaf(mid.entries[i], w.leaf) == HasLeaf(rule.entries[i], w.leaf)
      {
        PatchThenWrite(rule.entries[i], ws, w);
      }
    }
  }

  lemma WritePatched(rule: Rule, ws: seq<Write>, w: Write, mid: Rule)
    requires mid == rule.(entries := MapEntries(rule.entries, e => PatchEntry(e, ws)))
    requires Applicable(mid, w)
    ensures MapEntries(mid.entries, e => WriteEntry(e, w)) == MapEntries(rule.entries, e => PatchEntry(e, ws + [w]))
  {
    forall i | 0 <= i < |rule.entries|
      ensures WriteEntry(mid.entries[i], w) == PatchEntry(rule.entries[i], ws + [w])
    {
      PatchThenWrite(rule.entries[i], ws, w);
    }
  }

  // ---------- order of the writes ----------

  ghost predicate DistinctLeaves(ws: seq<Write>) {
    forall i, j :: 0 <= i < j < |ws| ==> (ws[i].entry, ws[i].leaf) != (ws[j].entry, ws[j].leaf)
  }

  /** With distinct leaves, the value found is that of the one write of that leaf. */
  lemma {:induction false} LookupDistinct(ws: seq<Write>, entry: nat, leaf: Leaf, value: LeafValue)
    requires DistinctLeaves(ws)
    ensures Lookup(ws, entry, leaf) == Some(value) <==> Write(entry, leaf, value) in ws
  {
    if ws != [] {
      var init, last := ws[..|ws| - 1], ws[|ws| - 1];
      assert ws == init + [last];
      LookupDistinct(init, entry, leaf, value);
      assert forall i :: 0 <= i < |init| ==> (init[i].entry, init[i].leaf) != (last.entry, last.leaf) by {
        assert forall i :: 0 <= i < |init| ==> (ws[i].entry, ws[i].leaf) != (ws[|init|].entry, ws[|init|].leaf);
      }
    }
  }

  /** What a list of writes of distinct leaves makes of an entry: the matching operator, action and first target value
      are those written, if any, and everything else is as it was. */
  lemma PatchedEntry(e: Entry, ws: seq<Write>)
    requires DistinctLeaves(ws) && forall i :: 0 <= i < |ws| ==> KindMatches(ws[i]) && Fits(e, ws[i])
    ensures var c := PatchEntry(e, ws);
            && c.index == e.index && c.field == e.field && c.direction == e.direction && c.length == e.length
            && (forall m :: Write(e.index, MatchingLeaf, MatchingIdentity(m)) in ws ==> c.matching == m)
            && (forall a :: Write(e.index, CdaLeaf, CdaIdentity(a)) in ws ==> c.cda == a)
            && (forall b :: Write(e.index, Target, TargetBytes(b)) in ws ==> Retargeted(e.target, c.target, b))
            && (NoneWritten(ws, e.index, MatchingLeaf) ==> c.matching == e.matching)
            && (NoneWritten(ws, e.index, CdaLeaf) ==> c.cda == e.cda)
            && (NoneWritten(ws, e.index, Target) ==> c.target == e.target)
  {
    forall leaf, v ensures Lookup(ws, e.index, leaf) == Some(v) <==> Write(e.index, leaf, v) in ws {
      LookupDistinct(ws, e.index, leaf, v);
    }
    forall leaf | NoneWritten(ws, e.index, leaf) ensures Lookup(ws, e.index, leaf) == None {
    }
    forall b | Write(e.index, Target, TargetBytes(b)) in ws ensures Retargeted(e.target, PatchEntry(e, ws).target, b) {
      assert Lookup(ws, e.index, Target) == Some(TargetBytes(b));
      var i :| 0 <= i < |ws| && ws[i] == Write(e.index, Target, TargetBytes(b));
      assert Fits(e, ws[i]);
      FirstReplaced(e.target, b);
    }
  }

  ghost predicate Fits(e: Entry, w: Write) {
    w.entry == e.index ==> HasLeaf(e, w.leaf)
  }

  ghost predicate NoneWritten(ws: seq<Write>, entry: nat, leaf: Leaf) {
    forall i :: 0 <= i < |ws| ==> ws[i].entry != entry || ws[i].leaf != leaf
  }

  /** The target value at index zero is `bytes`, and those at other indices are as they were. */
  ghost predicate Retargeted(before: TargetValue, after: TargetValue, bytes: seq<byte>) {
    && TargetAt(after, 0) == Some(bytes)
    && (after.Bytes? <==> before.Bytes?) && (after.Mapping? <==> before.Mapping?)
    && forall k: nat :: k > 0 ==> TargetAt(after, k) == TargetAt(before, k)
  }

  lemma FirstReplaced(target: TargetValue, bytes: seq<byte>)
    requires target.Bytes? || (target.Mapping? && target.list != [])
    ensures Retargeted(target, WithTarget(target, bytes), bytes)
  {
  }

  ghost predicate SameWrites(xs: seq<Write>, ys: seq<Write>) {
    forall w :: w in xs <==> w in ys
  }

  lemma LookupPermuted(xs: seq<Write>, ys: seq<Write>, entry: nat, leaf: Leaf)
    requires DistinctLeaves(xs) && DistinctLeaves(ys) && SameWrites(xs, ys)
    ensures Lookup(xs, entry, leaf) == Lookup(ys, entry, leaf)
  {
    var a, b := Lookup(xs, entry, leaf), Lookup(ys, entry, leaf);
    if a.Some? {
      LookupDistinct(xs, entry, leaf, a.value);
      LookupDistinct(ys, entry, leaf, a.value);
    } else if b.Some? {
      LookupDistinct(ys, entry, leaf, b.value);
      LookupDistinct(xs, entry, leaf, b.value);
    }
  }

  /** Writes of pairwise distinct leaves can be applied in any order. */
  lemma WritesIgnoreOrder(rule: Rule, xs: seq<Write>, ys: seq<Write>)
    requires DistinctLeaves(xs) && DistinctLeaves(ys) && SameWrites(xs, ys)
    ensures ApplyWrites(rule, xs) == ApplyWrites(rule, ys)
  {
    ApplyWritesMeaning(rule, xs);
    ApplyWritesMeaning(rule, ys);
    AllApplicable(rule, xs, ys);
    AllApplicable(rule, ys, xs);
    forall e: Entry ensures PatchEntry(e, xs) == PatchEntry(e, ys) {
      LookupPermuted(xs, ys, e.index, Target);
      LookupPermuted(xs, ys, e.index, MatchingLeaf);
      LookupPermuted(xs, ys, e.index, CdaLeaf);
    }
    assert MapEntries(rule.entries, e => PatchEntry(e, xs)) == MapEntries(rule.entries, e => PatchEntry(e, ys));
  }

  lemma AllApplicable(rule: Rule, xs: seq<Write>, ys: seq<Write>)
    requires SameWrites(xs, ys)
    ensures (forall k :: 0 <= k < |xs| ==> Applicable(rule, xs[k])) ==>
            (forall k :: 0 <= k < |ys| ==> Applicable(rule, ys[k]))
  {
    if forall k :: 0 <= k < |xs| ==> Applicable(rule, xs[k]) {
      forall k | 0 <= k < |ys| ensures Applicable(rule, ys[k]) {
        assert ys[k] in xs;
      }
    }
  }
}
