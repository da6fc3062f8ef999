/**
 CORECONF instance paths: SID deltas from the previous SID on the path, interleaved with the
 list keys that select one rule, one entry and one target value.
 */
module Paths {
  import opened Bits
  import opened Wrappers
  import opened RuleIds

  datatype KeyValue = Num(n: int) | OtherKey(text: string)

  datatype PathComponent = SidDelta(delta: int) | KeyComponent(key: KeyValue)

  type Path = seq<PathComponent>

  datatype Leaf = Target | MatchingLeaf | CdaLeaf

  datatype ModelSids = ModelSids(root: int, rule: int, entry: int, target: int, targetValue: int,
                                 matchingOperator: int, cda: int)

  function AsU64(key: KeyValue): (r: Option<u64>)
    ensures r.Some? <==> key.Num? && 0 <= key.n < U64_LIMIT
    ensures r.Some? ==> key == Num(r.value)
  {
    match key
    case Num(n) => if 0 <= n < U64_LIMIT then Some(n) else None
    case OtherKey(_) => None
  }

  // ---------- construction ----------

  datatype Builder = Builder(path: Path, previous: int) {
    function PushSid(sid: int): Builder {
      Builder(path + [SidDelta(sid - previous)], sid)
    }
    function PushKey(n: int): Builder {
      Builder(path + [KeyComponent(Num(n))], previous)
    }
  }

  /** The path of one target value of one entry of one rule. */
  function TargetValuePath(sids: ModelSids, rule: RuleId, entry: u64, index: u64): (path: Path)
    ensures |path| == 9
  {
    Builder([], 0).PushSid(sids.root).PushSid(sids.rule).PushKey(rule.value).PushKey(rule.length)
    .PushSid(sids.entry).PushKey(entry).PushSid(sids.target).PushKey(index).PushSid(sids.targetValue).path
  }

  /** The path of one overridden leaf of the destination rule. */
  function OverridePath(sids: ModelSids, destination: RuleId, entry: u64, leaf: Leaf): Path {
    var b := Builder([], 0).PushSid(sids.root).PushSid(sids.rule).PushKey(destination.value)
             .PushKey(destination.length).PushSid(sids.entry).PushKey(entry);
    match leaf
    case Target => b.PushSid(sids.target).PushKey(0).PushSid(sids.targetValue).path
    case MatchingLeaf => b.PushSid(sids.matchingOperator).path
    case CdaLeaf => b.PushSid(sids.cda).path
  }

  // ---------- parsing a targeted iPATCH path ----------

  datatype TargetPath = TargetPath(selector: RuleId, entry: u64, index: u64)

  function NewSelector(value: u64, bits: u64): (r: Option<RuleId>)
    ensures r.Some? <==> ValidSelector(RuleId(value, bits))
    ensures r.Some? ==> r.value == RuleId(value, bits)
  {
    if !(1 <= bits <= 64) then None
    else if bits < 64 && value >= Pow2(bits) then None
    else
      assert bits == 64 ==> value < Pow2(bits) by { Pow2Values(); }
      Some(RuleId(value, bits))
  }

  function PatchKey(component: PathComponent): Option<u64> {
    if component.KeyComponent? then AsU64(component.key) else None
  }

  /** The checks on an iPATCH path, in the order they are made. */
  function ParseTargetPath(path: Path, sids: ModelSids): Option<TargetPath> {
    if |path| != 9 then None
    else if path[0] != SidDelta(sids.root) || path[1] != SidDelta(sids.rule - sids.root) then None
    else
      var value, bits := PatchKey(path[2]), PatchKey(path[3]);
      if value.None? || bits.None? then None
      else
        var selector := NewSelector(value.value, bits.value);
        if selector.None? then None
        else if path[4] != SidDelta(sids.entry - sids.rule) then None
        else
          var entry := PatchKey(path[5]);
          if entry.None? || path[6] != SidDelta(sids.target - sids.entry) then None
          else
            var index := PatchKey(path[7]);
            if index.None? || path[8] != SidDelta(sids.targetValue - sids.target) then None
            else if path != TargetValuePath(sids, selector.value, entry.value, index.value) then None
            else Some(TargetPath(selector.value, entry.value, index.value))
  }

  /** Parsing accepts exactly the canonical paths of valid selectors and gives back what they were
      built from. */
  lemma ParseAcceptsCanonical(path: Path, sids: ModelSids, t: TargetPath)
    ensures ParseTargetPath(path, sids) == Some(t) <==>
            ValidSelector(t.selector) && path == TargetValuePath(sids, t.selector, t.entry, t.index)
  {
    if ValidSelector(t.selector) && path == TargetValuePath(sids, t.selector, t.entry, t.index) {
      CanonicalComponents(sids, t);
      assert path[2] == KeyComponent(Num(t.selector.value));
      assert path[3] == KeyComponent(Num(t.selector.length));
      assert NewSelector(t.selector.value, t.selector.length) == Some(t.selector);
    }
  }

  lemma CanonicalComponents(sids: ModelSids, t: TargetPath)
    ensures TargetValuePath(sids, t.selector, t.entry, t.index) ==
            [SidDelta(sids.root), SidDelta(sids.rule - sids.root), KeyComponent(Num(t.selector.value)),
             KeyComponent(Num(t.selector.length)), SidDelta(sids.entry - sids.rule), KeyComponent(Num(t.entry)),
             SidDelta(sids.target - sids.entry), KeyComponent(Num(t.index)),
             SidDelta(sids.targetValue - sids.target)]
  {
  }

  lemma OverrideComponents(sids: ModelSids, destination: RuleId, entry: u64, leaf: Leaf)
    ensures OverridePath(sids, destination, entry, leaf) ==
            [SidDelta(sids.root), SidDelta(sids.rule - sids.root), KeyComponent(Num(destination.value)),
             KeyComponent(Num(destination.length)), SidDelta(sids.entry - sids.rule), KeyComponent(Num(entry))]
            + match leaf
              case Target => [SidDelta(sids.target - sids.entry), KeyComponent(Num(0)),
                              SidDelta(sids.targetValue - sids.target)]
              case MatchingLeaf => [SidDelta(sids.matchingOperator - sids.entry)]
              case CdaLeaf => [SidDelta(sids.cda - sids.entry)]
  {
  }

  // ---------- parsing a duplicate override path ----------

  /** The absolute SIDs along a path that starts at `absolute`. */
  function SidsOf(path: Path, absolute: int): seq<int> {
    if path == [] then []
    else match path[0]
      case SidDelta(d) => [absolute + d] + SidsOf(path[1..], absolute + d)
      case KeyComponent(_) => SidsOf(path[1..], absolute)
  }

  function KeysOf(path: Path): seq<KeyValue> {
    if path == [] then []
    else match path[0]
      case SidDelta(_) => KeysOf(path[1..])
      case KeyComponent(k) => [k] + KeysOf(path[1..])
  }

  lemma {:induction false} KeysOfAppend(a: Path, b: Path)
    ensures KeysOf(a + b) == KeysOf(a) + KeysOf(b)
  {
    if a == [] {
      assert a + b == b;
    } else {
      assert (a + b)[1..] == a[1..] + b;
      KeysOfAppend(a[1..], b);
    }
  }

  function LastSid(path: Path, absolute: int): int {
    if path == [] then absolute
    else match path[0]
      case SidDelta(d) => LastSid(path[1..], absolute + d)
      case KeyComponent(_) => LastSid(path[1..], absolute)
  }

  lemma {:induction false} SidsOfAppend(a: Path, b: Path, absolute: int)
    ensures SidsOf(a + b, absolute) == SidsOf(a, absolute) + SidsOf(b, LastSid(a, absolute))
    ensures LastSid(a + b, absolute) == LastSid(b, LastSid(a, absolute))
  {
    if a == [] {
      assert a + b == b;
    } else {
      assert (a + b)[1..] == a[1..] + b;
      SidsOfAppend(a[1..], b, if a[0].SidDelta? then absolute + a[0].delta else absolute);
    }
  }

  /** What the SIDs and keys of an override path say. */
  function LeafOfParts(pathSids: seq<int>, keys: seq<KeyValue>, destination: RuleId, sids: ModelSids)
    : Option<(u64, Leaf)>
  {
    if |keys| < 1 || AsU64(keys[0]).None? then None
    else if |keys| < 2 || AsU64(keys[1]).None? then None
    else if AsU64(keys[0]).value != destination.value || AsU64(keys[1]).value != destination.length then None
    else if |keys| < 3 || AsU64(keys[2]).None? then None
    else
      var entry := AsU64(keys[2]).value;
      if pathSids == [sids.root, sids.rule, sids.entry, sids.matchingOperator] then Some((entry, MatchingLeaf))
      else if pathSids == [sids.root, sids.rule, sids.entry, sids.cda] then Some((entry, CdaLeaf))
      else if pathSids == [sids.root, sids.rule, sids.entry, sids.target, sids.targetValue] && |keys| == 4 then
        if AsU64(keys[3]) == Some(0) then Some((entry, Target)) else None
      else None
  }

  function LeafOf(path: Path, destination: RuleId, sids: ModelSids): Option<(u64, Leaf)> {
    LeafOfParts(SidsOf(path, 0), KeysOf(path), destination, sids)
  }

  /** Walks the components once, adding up deltas and collecting keys. */
  method LeafFromPath(path: Path, destination: RuleId, sids: ModelSids) returns (r: Option<(u64, Leaf)>)
    ensures r == LeafOf(path, destination, sids)
  {
    var absolute := 0;
    var pathSids: seq<int> := [];
    var keys: seq<KeyValue> := [];
    var i := 0;
    while i < |path|
      invariant 0 <= i <= |path|
      invariant pathSids == SidsOf(path[..i], 0) && absolute == LastSid(path[..i], 0)
      invariant keys == KeysOf(path[..i])
    {
      assert path[..i + 1] == path[..i] + [path[i]];
      KeysOfAppend(path[..i], [path[i]]);
      SidsOfAppend(path[..i], [path[i]], 0);
      assert [path[i]][1..] == [];
      match path[i] {
        case SidDelta(delta) =>
          absolute := absolute + delta;
          pathSids := pathSids + [absolute];
        case KeyComponent(key) =>
          keys := keys + [key];
      }
      i := i + 1;
    }
    assert path[..i] == path;
    return LeafOfParts(pathSids, keys, destination, sids);
  }

  function LeafSids(sids: ModelSids, leaf: Leaf): seq<int> {
    [sids.root, sids.rule, sids.entry] +
    match leaf
    case Target => [sids.target, sids.targetValue]
    case MatchingLeaf => [sids.matchingOperator]
    case CdaLeaf => [sids.cda]
  }

  function LeafKeys(destination: RuleId, entry: u64, leaf: Leaf): seq<KeyValue> {
    [Num(destination.value), Num(destination.length), Num(entry)] + if leaf == Target then [Num(0)] else []
  }

  /** What a builder has pushed so far. */
  ghost predicate Tracks(b: Builder, pathSids: seq<int>, keys: seq<KeyValue>) {
    SidsOf(b.path, 0) == pathSids && KeysOf(b.path) == keys && LastSid(b.path, 0) == b.previous
  }

  lemma PushSidTracks(b: Builder, sid: int, pathSids: seq<int>, keys: seq<KeyValue>)
    requires Tracks(b, pathSids, keys)
    ensures Tracks(b.PushSid(sid), pathSids + [sid], keys)
  {
    var step := [SidDelta(sid - b.previous)];
    assert step[1..] == [];
    KeysOfAppend(b.path, step);
    SidsOfAppend(b.path, step, 0);
  }

  lemma PushKeyTracks(b: Builder, n: int, pathSids: seq<int>, keys: seq<KeyValue>)
    requires Tracks(b, pathSids, keys)
    ensures Tracks(b.PushKey(n), pathSids, keys + [Num(n)])
  {
    var step := [KeyComponent(Num(n))];
    assert step[1..] == [];
    KeysOfAppend(b.path, step);
    SidsOfAppend(b.path, step, 0);
  }

  /** The SIDs and keys of a constructed override path. */
  lemma OverridePathParts(sids: ModelSids, destination: RuleId, entry: u64, leaf: Leaf)
    ensures SidsOf(OverridePath(sids, destination, entry, leaf), 0) == LeafSids(sids, leaf)
    ensures KeysOf(OverridePath(sids, destination, entry, leaf)) == LeafKeys(destination, entry, leaf)
  {
    var b := Builder([], 0);
    var s: seq<int>, k: seq<KeyValue> := [], [];
    PushSidTracks(b, sids.root, s, k);
    b, s := b.PushSid(sids.root), s + [sids.root];
    PushSidTracks(b, sids.rule, s, k);
    b, s := b.PushSid(sids.rule), s + [sids.rule];
    PushKeyTracks(b, destination.value, s, k);
    b, k := b.PushKey(destination.value), k + [Num(destination.value)];
    PushKeyTracks(b, destination.length, s, k);
    b, k := b.PushKey(destination.length), k + [Num(destination.length)];
    PushSidTracks(b, sids.entry, s, k);
    b, s := b.PushSid(sids.entry), s + [sids.entry];
    PushKeyTracks(b, entry, s, k);
    b, k := b.PushKey(entry), k + [Num(entry)];
    match leaf {
      case Target =>
        PushSidTracks(b, sids.target, s, k);
        b, s := b.PushSid(sids.target), s + [sids.target];
        PushKeyTracks(b, 0, s, k);
        b, k := b.PushKey(0), k + [Num(0)];
        PushSidTracks(b, sids.targetValue, s, k);
      case MatchingLeaf => PushSidTracks(b, sids.matchingOperator, s, k);
      case CdaLeaf => PushSidTracks(b, sids.cda, s, k);
    }
  }

  /** Every constructed path is read back, provided the two four-SID leaves can be told apart. */
  lemma LeafRoundTrip(sids: ModelSids, destination: RuleId, entry: u64, leaf: Leaf)
    requires ValidSelector(destination)
    ensures LeafOf(OverridePath(sids, destination, entry, leaf), destination, sids) == Some((entry, leaf)) <==>
            (leaf == CdaLeaf ==> sids.matchingOperator != sids.cda)
  {
    OverridePathParts(sids, destination, entry, leaf);
    assert LeafSids(sids, CdaLeaf)[3] == sids.cda;
    if leaf == Target {
      assert LeafSids(sids, Target) == [sids.root, sids.rule, sids.entry, sids.target, sids.targetValue];
    } else if leaf == MatchingLeaf {
      assert LeafSids(sids, MatchingLeaf) == [sids.root, sids.rule, sids.entry, sids.matchingOperator];
    } else {
      assert LeafSids(sids, CdaLeaf) == [sids.root, sids.rule, sids.entry, sids.cda];
    }
  }

  /** The reader ignores how keys and SIDs interleave, and trailing keys of the two scalar leaves:
      it accepts exactly the paths that agree with a constructed one in everything else. */
  lemma LeafAccepts(path: Path, sids: ModelSids, destination: RuleId, entry: u64, leaf: Leaf)
    requires ValidSelector(destination) && sids.matchingOperator != sids.cda
    ensures var built := OverridePath(sids, destination, entry, leaf);
            LeafOf(path, destination, sids) == Some((entry, leaf)) <==>
            && SidsOf(path, 0) == SidsOf(built, 0)
            && if leaf == Target then KeysOf(path) == KeysOf(built) else KeysOf(built) <= KeysOf(path)
  {
    OverridePathParts(sids, destination, entry, leaf);
    var s, k := SidsOf(path, 0), KeysOf(path);
    assert LeafSids(sids, Target) == [sids.root, sids.rule, sids.entry, sids.target, sids.targetValue];
    assert LeafSids(sids, MatchingLeaf) == [sids.root, sids.rule, sids.entry, sids.matchingOperator];
    assert LeafSids(sids, CdaLeaf) == [sids.root, sids.rule, sids.entry, sids.cda];
    assert LeafSids(sids, CdaLeaf)[3] != LeafSids(sids, MatchingLeaf)[3];
    if LeafOf(path, destination, sids) == Some((entry, leaf)) {
      assert k[0] == Num(destination.value) && k[1] == Num(destination.length) && k[2] == Num(entry);
      assert k[..3] == [Num(destination.value), Num(destination.length), Num(entry)];
    }
  }

  /** So acceptance is wider than the canonical paths: this one puts every key before every SID. */
  lemma NonCanonicalPathAccepted(sids: ModelSids, destination: RuleId, entry: u64)
    returns (path: Path)
    requires ValidSelector(destination)
    ensures LeafOf(path, destination, sids) == Some((entry, MatchingLeaf))
    ensures path != OverridePath(sids, destination, entry, MatchingLeaf)
  {
    var b := Builder([], 0);
    var s: seq<int>, k: seq<KeyValue> := [], [];
    PushKeyTracks(b, destination.value, s, k);
    b, k := b.PushKey(destination.value), k + [Num(destination.value)];
    PushKeyTracks(b, destination.length, s, k);
    b, k := b.PushKey(destination.length), k + [Num(destination.length)];
    PushKeyTracks(b, entry, s, k);
    b, k := b.PushKey(entry), k + [Num(entry)];
    PushSidTracks(b, sids.root, s, k);
    b, s := b.PushSid(sids.root), s + [sids.root];
    PushSidTracks(b, sids.rule, s, k);
    b, s := b.PushSid(sids.rule), s + [sids.rule];
    PushSidTracks(b, sids.entry, s, k);
    b, s := b.PushSid(sids.entry), s + [sids.entry];
    PushSidTracks(b, sids.matchingOperator, s, k);
    path := b.PushSid(sids.matchingOperator).path;
    assert path[0].KeyComponent?;
    assert OverridePath(sids, destination, entry, MatchingLeaf)[0].SidDelta?;
  }
}
