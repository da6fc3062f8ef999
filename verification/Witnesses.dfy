/**
 Concrete contexts and requests at which the stated conditions bite.
 */
module Witnesses {
  import opened Bits
  import opened Wrappers
  import opened Sorting
  import opened RuleIds
  import opened RuleModel
  import opened Kraft
  import opened TargetValues
  import opened Paths
  import opened Duplicate
  import opened Context
  import opened Management
  import opened Patches
  import opened Runs
  import opened Plans
  import opened Copies
  import R = Replicas

  /** Rules 0/2, 1/2, ... without entries. */
  function FlatRule(n: nat): Rule
    requires n < 4
  {
    Rule(RuleId(n, 2), NoCompression, [])
  }

  function Flat(n: nat): (rules: seq<Rule>)
    requires n <= 4
    ensures |rules| == n && forall i :: 0 <= i < n ==> rules[i] == FlatRule(i)
  {
    seq(n, i requires 0 <= i < n => FlatRule(i))
  }

  function FlatTree(n: nat): Tree
    requires n <= 4
  {
    Tree(Flat(n), None)
  }

  /** No namespace, and no objection from other packages. */
  ghost function OpenRecipe(): Recipe {
    Recipe(0, None, ModelSids(1, 2, 3, 4, 5, 6, 7), _ => true, _ => 0, _ => 0, n => n)
  }

  lemma FlatLoadable(n: nat)
    requires n <= 4
    ensures Loadable(OpenRecipe(), FlatTree(n))
  {
    var ids := RuleIdsOf(Flat(n));
    Pow2Small();
    forall i | 0 <= i < |ids| ensures ValidSpec(ids[i]) && ids[i] == RuleId(i, 2) {
    }
    forall i, j | 0 <= i < j < |ids| ensures !Overlaps(ids[i], ids[j]) {
      if Overlaps(ids[i], ids[j]) {
        SameLengthPrefix(ids[i], ids[j]);
      }
    }
  }

  lemma FlatAdmissible(n: nat, m: nat)
    requires n <= 4 && m <= 4
    ensures Admissible(OpenRecipe(), FlatTree(n), FlatTree(m))
  {
    FlatLoadable(m);
  }

  lemma FlatGrows(n: nat)
    requires n < 4
    ensures WithRule(Flat(n), FlatRule(n)) == Flat(n + 1) && FindRule(Flat(n), RuleId(n, 2)).None?
  {
    assert Retain(Flat(n), RuleId(n, 2)) == Flat(n);
    assert Flat(n) + [FlatRule(n)] == Flat(n + 1);
    SortedIsFixed(RuleKey, Flat(n + 1));
  }

  function FlatRequest(n: nat): DuplicateRequest
    requires 0 < n < 4
  {
    DuplicateRequest(RuleId(n - 1, 2), RuleId(n, 2), [])
  }

  lemma FlatRequested(n: nat, m: nat)
    requires 0 < n < 4 && n <= m <= 4
    ensures RequestedRule(OpenRecipe(), Flat(m), FlatRequest(n)) == Some(FlatRule(n))
  {
    Pow2Small();
    var rules := Flat(m);
    assert rules[n - 1] in rules;
    FindUnique(rules, rules[n - 1]);
  }

  lemma AdmissibleInstalled(recipe: Recipe, s: Snapshot, rule: Rule, candidate: Tree)
    requires ValidSelector(rule.id) && FindRule(s.tree.rules, rule.id).None? && InNamespace(recipe, rule.id)
    requires candidate == Candidate(s.tree, rule) && Admissible(recipe, s.tree, candidate)
    ensures InstallStep(recipe, s, rule) == (Snapshot(candidate, s.generation + 1), Applied)
  {
    InstallNew(recipe, s, rule);
  }

  lemma FlatInstalled(n: nat, generation: nat)
    requires n < 4 && ValidSelector(FlatRule(n).id)
    ensures InstallStep(OpenRecipe(), Snapshot(FlatTree(n), generation), FlatRule(n))
            == (Snapshot(FlatTree(n + 1), generation + 1), Applied)
  {
    FlatGrows(n);
    FlatAdmissible(n, n + 1);
    AdmissibleInstalled(OpenRecipe(), Snapshot(FlatTree(n), generation), FlatRule(n), FlatTree(n + 1));
  }

  lemma FlatApplied(n: nat, generation: nat)
    requires 0 < n < 4
    ensures DuplicateStep(OpenRecipe(), Snapshot(FlatTree(n), generation), FlatRequest(n))
            == (Snapshot(FlatTree(n + 1), generation + 1), Applied)
  {
    FlatRequested(n, n);
    FlatInstalled(n, generation);
  }

  /** Two applied duplicates of which the second copies what the first makes. */
  lemma ChainExists() returns (recipe: Recipe, s: Snapshot, first: DuplicateRequest, second: DuplicateRequest)
    ensures Loadable(recipe, s.tree) && BothApplied(recipe, s, first, second) && second.source == first.destination
  {
    recipe, s := OpenRecipe(), Snapshot(FlatTree(1), 1);
    first, second := FlatRequest(1), FlatRequest(2);
    FlatLoadable(1);
    FlatApplied(1, 1);
    FlatApplied(2, 2);
  }

  /** A backend whose replace succeeds although two other publications came in between. */
  lemma RestoredTreeExists() returns (recipe: Recipe, s: Snapshot, other: Tree, next: Tree)
    ensures Loadable(recipe, s.tree) && other != s.tree
    ensures var es := [Open(0), Open(1)] + [Replace(1, other)] + [Replace(1, s.tree)];
            && Publications(recipe, World(s, map[]), es) == 2
            && Run(recipe, World(s, map[]), es + [Replace(0, next)]).snap == Snapshot(next, s.generation + 3)
  {
    recipe, s, other, next := OpenRecipe(), Snapshot(FlatTree(1), 1), FlatTree(2), FlatTree(3);
    assert |Flat(1)| != |Flat(2)|;
    FlatLoadable(1);
    FlatAdmissible(1, 2);
    FlatAdmissible(2, 1);
    FlatAdmissible(1, 3);
    RestoredTreeIsReplaced(recipe, s, other, next);
  }

  lemma FlatConfirmed(n: nat, generation: nat)
    requires 0 < n < 3
    ensures DuplicateStep(OpenRecipe(), Snapshot(FlatTree(n + 1), generation), FlatRequest(n))
            == (Snapshot(FlatTree(n + 1), generation), Idempotent)
  {
    FlatLoadable(n + 1);
    FlatRequested(n, n + 1);
    LoadableUnique(OpenRecipe(), FlatTree(n + 1));
    assert Flat(n + 1)[n] in Flat(n + 1);
    FindUnique(Flat(n + 1), FlatRule(n));
    DuplicateOutcome(OpenRecipe(), Snapshot(FlatTree(n + 1), generation), FlatRequest(n));
  }

  /** A duplicate that was there already and is reported as installed. */
  lemma MisreportExists() returns (recipe: Recipe, s: Snapshot, request: DuplicateRequest, other: Tree)
    ensures Loadable(recipe, s.tree)
    ensures var run := R.CopyLocally(recipe, s, request, [], [other]);
            run.result == Idempotent && R.ReportOf(s, run) == R.Installed
  {
    recipe, s, request, other := OpenRecipe(), Snapshot(FlatTree(2), 1), FlatRequest(1), FlatTree(3);
    FlatLoadable(2);
    FlatConfirmed(1, 1);
    FlatAdmissible(2, 3);
    R.IdempotentReportedInstalled(recipe, s, request, other);
  }

  // ---------- a patch lost to a repetition ----------

  /** One rule with one eight-bit entry. */
  function ByteRule(value: byte): Rule {
    var target := Bytes([value]);
    Rule(RuleId(0, 2), Compression, [Entry(0, Payload, Both, FixedBits(8), target, Equal, Cda.NotSent)])
  }

  function ByteTree(value: byte): Tree {
    Tree([ByteRule(value)], None)
  }

  const BYTE_TARGET := TargetPath(RuleId(0, 2), 0, 0)

  lemma ByteLoadable(value: byte)
    ensures Loadable(OpenRecipe(), ByteTree(value))
  {
    Pow2Small();
    assert RuleIdsOf([ByteRule(value)]) == [RuleId(0, 2)];
  }

  lemma ByteFits(value: byte)
    ensures BinaryFits([value], 8)
  {
    Pow2Small();
    assert [value][..0] == [];
    assert BigEndian([value]) == value;
    BinaryFitsMeaning([value], 8);
  }

  lemma BytePatched(value: byte, next: byte)
    ensures PatchTree(ByteTree(value), BYTE_TARGET, [next]) == ByteTree(next)
  {
    var rule := ByteRule(value);
    assert PatchRule(rule, BYTE_TARGET, [next]).entries == ByteRule(next).entries;
    assert PatchTree(ByteTree(value), BYTE_TARGET, [next]).rules == [ByteRule(next)];
  }

  lemma ByteStep(value: byte, next: byte, generation: nat)
    ensures TargetStep(OpenRecipe(), Snapshot(ByteTree(value), generation), BYTE_TARGET, [next], None)
            == (Snapshot(ByteTree(next), generation + 1), Changed)
  {
    ByteLoadable(value);
    ByteFits(value);
    ByteFits(next);
    BytePatched(value, next);
    assert Slot(ByteTree(value), BYTE_TARGET) == Some(([value], FixedBits(8)));
    ChecksMeaning(ByteTree(value), BYTE_TARGET, [next]);
    OrdinaryStep(OpenRecipe(), Snapshot(ByteTree(value), generation), BYTE_TARGET, [next], ByteTree(next));
  }

  /** Two different patches of one target, both answered 2.04; a repetition of the first loses the second. */
  lemma LostPatchExists()
    returns (recipe: Recipe, s: Snapshot, t: TargetPath, first: seq<byte>, second: seq<byte>)
    ensures Loadable(recipe, s.tree) && ValidSelector(t.selector) && first != second
    ensures var (one, a) := TargetStep(recipe, s, t, first, None);
            var (two, b) := TargetStep(recipe, one, t, second, None);
            && a == Changed && b == Changed && two.tree != one.tree
            && TargetStep(recipe, two, t, first, None) == (Snapshot(one.tree, two.generation + 1), Changed)
  {
    recipe, s, t, first, second := OpenRecipe(), Snapshot(ByteTree(1), 1), BYTE_TARGET, [2], [3];
    Pow2Small();
    ByteLoadable(1);
    ByteStep(1, 2, 1);
    ByteStep(2, 3, 2);
    ByteStep(3, 2, 3);
    assert ByteRule(2).entries[0].target != ByteRule(3).entries[0].target;
  }
}
