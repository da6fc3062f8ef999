/**
 Normalisation of the datastore tree: rule lists are sorted by RuleID and entry lists by index,
 everywhere in the tree, and an entry list with a missing or repeated index is refused.
 */
module Codec {
  import opened Bits
  import opened Wrappers
  import opened Sorting

  datatype Json = Null | Bool(b: bool) | Number(n: int) | OtherNumber(text: string) | Text(s: string)
                | Array(items: seq<Json>) | Object(members: seq<Member>)

  datatype Member = Member(key: string, value: Json)

  const RULE := "rule"
  const ENTRIES := "entry-universal"
  const INDEX := "entry-index"
  const ID_LENGTH := "rule-id-length"
  const ID_VALUE := "rule-id-value"

  function Find(members: seq<Member>, key: string): Option<Json> {
    if members == [] then None
    else if members[0].key == key then Some(members[0].value)
    else Find(members[1..], key)
  }

  function Get(value: Json, key: string): Option<Json> {
    if value.Object? then Find(value.members, key) else None
  }

  /** The unsigned number under a key, if there is one. */
  function GetU64(value: Json, key: string): Option<u64> {
    match Get(value, key)
    case Some(Number(n)) => if 0 <= n < U64_LIMIT then Some(n) else None
    case _ => None
  }

  /** The number read is that of the first member with the key, when it is an integer of 64 bits. */
  lemma NumberRead(value: Json, key: string, n: int)
    ensures (GetU64(value, key).Some? && GetU64(value, key).value == n) <==>
            && 0 <= n < U64_LIMIT && value.Object?
            && exists i :: 0 <= i < |value.members| && FirstUnder(value.members, key, i)
                           && value.members[i].value == Number(n)
  {
    if value.Object? {
      FindMeaning(value.members, key);
    }
  }

  predicate FirstUnder(members: seq<Member>, key: string, i: nat)
    requires i < |members|
  {
    members[i].key == key && forall j :: 0 <= j < i ==> members[j].key != key
  }

  lemma {:induction false} FindMeaning(members: seq<Member>, key: string)
    ensures Find(members, key).None? ==> forall i :: 0 <= i < |members| ==> members[i].key != key
    ensures Find(members, key).Some? ==>
              exists i :: 0 <= i < |members| && FirstUnder(members, key, i)
                          && members[i].value == Find(members, key).value
  {
    if members != [] && members[0].key == key {
      assert FirstUnder(members, key, 0);
    } else if members != [] {
      FindMeaning(members[1..], key);
      if Find(members, key).Some? {
        var i :| 0 <= i < |members[1..]| && FirstUnder(members[1..], key, i)
                 && members[1..][i].value == Find(members, key).value;
        forall j | 0 <= j < i + 1 ensures members[j].key != key {
          assert j > 0 ==> members[1..][j - 1] == members[j];
        }
        assert FirstUnder(members, key, i + 1);
      } else {
        forall j | 0 <= j < |members| ensures members[j].key != key {
          assert j > 0 ==> members[1..][j - 1] == members[j];
        }
      }
    }
  }

  function OrZero(n: Option<u64>): nat {
    if n.Some? then n.value else 0
  }

  function RuleOrder(value: Json): Key { Key(OrZero(GetU64(value, ID_LENGTH)), OrZero(GetU64(value, ID_VALUE))) }

  function EntryOrder(value: Json): Key { Key(OrZero(GetU64(value, INDEX)), 0) }

  /** Every entry has a numeric index, and no two the same. */
  predicate IndexedEntries(items: seq<Json>) {
    && (forall i :: 0 <= i < |items| ==> GetU64(items[i], INDEX).Some?)
    && (forall i, j :: 0 <= i < j < |items| ==> GetU64(items[i], INDEX) != GetU64(items[j], INDEX))
  }

  /** What happens to a list after its members are normalised, depending on the key it stands under. */
  function Arrange(items: seq<Json>, key: Option<string>): Option<seq<Json>> {
    if key == Some(RULE) then Some(SortBy(RuleOrder, items))
    else if key == Some(ENTRIES) then
      var sorted := SortBy(EntryOrder, items);
      if IndexedEntries(sorted) then Some(sorted) else None
    else Some(items)
  }

  function Normalize(value: Json, key: Option<string>): Option<Json>
    decreases value, 1
  {
    match value
    case Object(members) =>
      var r := NormalizeMembers(members);
      if r.None? then None else Some(Object(r.value))
    case Array(items) =>
      var r := NormalizeItems(items);
      if r.None? then None
      else
        var arranged := Arrange(r.value, key);
        if arranged.None? then None else Some(Array(arranged.value))
    case _ => Some(value)
  }

  function NormalizeMembers(members: seq<Member>): Option<seq<Member>>
    decreases members, 0
  {
    if members == [] then Some([])
    else
      var last := members[|members| - 1];
      var init, r := NormalizeMembers(members[..|members| - 1]), Normalize(last.value, Some(last.key));
      if init.None? || r.None? then None else Some(init.value + [Member(last.key, r.value)])
  }

  function NormalizeItems(items: seq<Json>): Option<seq<Json>>
    decreases items, 0
  {
    if items == [] then Some([])
    else
      var init, r := NormalizeItems(items[..|items| - 1]), Normalize(items[|items| - 1], None);
      if init.None? || r.None? then None else Some(init.value + [r.value])
  }

  // ---------- the program's recursion ----------

  /** Normalises members in place, then sorts and checks the lists; an error stops everything. */
  method NormalizeValue(value: Json, key: Option<string>) returns (r: Option<Json>)
    ensures r == Normalize(value, key)
    decreases value, 1
  {
    match value {
      case Object(members) =>
        var out: seq<Member> := [];
        var i := 0;
        while i < |members|
          invariant 0 <= i <= |members| && NormalizeMembers(members[..i]) == Some(out)
        {
          MembersPrefix(members, i + 1);
          assert members[..i + 1][..i] == members[..i];
          var child := NormalizeValue(members[i].value, Some(members[i].key));
          if child.None? {
            return None;
          }
          out := out + [Member(members[i].key, child.value)];
          i := i + 1;
        }
        assert members[..i] == members;
        return Some(Object(out));
      case Array(items) =>
        var out: seq<Json> := [];
        var i := 0;
        while i < |items|
          invariant 0 <= i <= |items| && NormalizeItems(items[..i]) == Some(out)
        {
          ItemsPrefix(items, i + 1);
          assert items[..i + 1][..i] == items[..i];
          var child := NormalizeValue(items[i], None);
          if child.None? {
            return None;
          }
          out := out + [child.value];
          i := i + 1;
        }
        assert items[..i] == items;
        var arranged := ArrangeList(out, key);
        return if arranged.None? then None else Some(Array(arranged.value));
      case _ =>
        return Some(value);
    }
  }

  /** Sorts the two kinds of list and checks entry indices with a set of those seen. */
  method ArrangeList(items: seq<Json>, key: Option<string>) returns (r: Option<seq<Json>>)
    ensures r == Arrange(items, key)
  {
    if key == Some(RULE) {
      return Some(SortBy(RuleOrder, items));
    }
    if key != Some(ENTRIES) {
      return Some(items);
    }
    var sorted := SortBy(EntryOrder, items);
    var seen: set<u64> := {};
    var i := 0;
    while i < |sorted|
      invariant 0 <= i <= |sorted|
      invariant IndexedEntries(sorted[..i])
      invariant forall n :: n in seen <==> exists j :: 0 <= j < i && GetU64(sorted[j], INDEX) == Some(n)
    {
      var index := GetU64(sorted[i], INDEX);
      if index.None? || index.value in seen {
        return None;
      }
      seen := seen + {index.value};
      assert sorted[..i + 1] == sorted[..i] + [sorted[i]];
      i := i + 1;
    }
    assert sorted[..i] == sorted;
    return Some(sorted);
  }

  lemma {:induction false} MembersPrefix(members: seq<Member>, n: nat)
    requires n <= |members|
    ensures NormalizeMembers(members[..n]).None? ==> NormalizeMembers(members).None?
    decreases |members|
  {
    if n == |members| {
      assert members[..n] == members;
    } else {
      assert members[..|members| - 1][..n] == members[..n];
      MembersPrefix(members[..|members| - 1], n);
    }
  }

  lemma {:induction false} ItemsPrefix(items: seq<Json>, n: nat)
    requires n <= |items|
    ensures NormalizeItems(items[..n]).None? ==> NormalizeItems(items).None?
    decreases |items|
  {
    if n == |items| {
      assert items[..n] == items;
    } else {
      assert items[..|items| - 1][..n] == items[..n];
      ItemsPrefix(items[..|items| - 1], n);
    }
  }

  // ---------- elementwise meaning ----------

  lemma {:induction false} ItemsMeaning(items: seq<Json>)
    ensures NormalizeItems(items).Some? <==> forall i :: 0 <= i < |items| ==> Normalize(items[i], None).Some?
    ensures NormalizeItems(items).Some? ==>
              && |NormalizeItems(items).value| == |items|
              && forall i :: 0 <= i < |items| ==> Normalize(items[i], None) == Some(NormalizeItems(items).value[i])
  {
    if items != [] {
      var init := items[..|items| - 1];
      ItemsMeaning(init);
      assert forall i :: 0 <= i < |init| ==> init[i] == items[i];
    }
  }

  lemma {:induction false} MembersMeaning(members: seq<Member>)
    ensures NormalizeMembers(members).Some? <==>
            forall i :: 0 <= i < |members| ==> Normalize(members[i].value, Some(members[i].key)).Some?
    ensures NormalizeMembers(members).Some? ==>
              && |NormalizeMembers(members).value| == |members|
              && forall i :: 0 <= i < |members| ==>
                   && NormalizeMembers(members).value[i].key == members[i].key
                   && Normalize(members[i].value, Some(members[i].key))
                      == Some(NormalizeMembers(members).value[i].value)
  {
    if members != [] {
      var init := members[..|members| - 1];
      MembersMeaning(init);
      assert forall i :: 0 <= i < |init| ==> init[i] == members[i];
    }
  }

  lemma {:induction false} FindSameKeys(a: seq<Member>, b: seq<Member>, key: string)
    requires |a| == |b| && forall i :: 0 <= i < |a| ==> a[i].key == b[i].key
    ensures Find(a, key).Some? == Find(b, key).Some?
    ensures Find(a, key).Some? ==>
              exists i :: 0 <= i < |a| && a[i].key == key && Find(a, key) == Some(a[i].value)
                          && Find(b, key) == Some(b[i].value)
  {
    if a != [] && a[0].key != key {
      FindSameKeys(a[1..], b[1..], key);
      if Find(a, key).Some? {
        var i :| 0 <= i < |a[1..]| && a[1..][i].key == key && Find(a[1..], key) == Some(a[1..][i].value)
          && Find(b[1..], key) == Some(b[1..][i].value);
        assert a[i + 1] == a[1..][i] && b[i + 1] == b[1..][i];
      }
    }
  }

  lemma NumberStays(value: Json, k: Option<string>)
    requires Normalize(value, k).Some?
    ensures Normalize(value, k).value.Number? <==> value.Number?
    ensures value.Number? ==> Normalize(value, k).value == value
  {
  }

  lemma NumbersFound(a: seq<Member>, b: seq<Member>, key: string)
    requires |a| == |b| && forall i :: 0 <= i < |a| ==> a[i].key == b[i].key
    requires forall i :: 0 <= i < |a| ==>
               (a[i].value.Number? <==> b[i].value.Number?) && (a[i].value.Number? ==> a[i].value == b[i].value)
    ensures GetU64(Object(a), key) == GetU64(Object(b), key)
  {
    FindSameKeys(a, b, key);
  }

  /** Normalising moves list members about but changes no number, so the numbers lists are ordered by
      are those of the original. */
  lemma NumbersKept(value: Json, k: Option<string>, key: string)
    requires Normalize(value, k).Some?
    ensures GetU64(Normalize(value, k).value, key) == GetU64(value, key)
  {
    if value.Object? {
      MembersMeaning(value.members);
      var out := NormalizeMembers(value.members).value;
      forall i | 0 <= i < |out|
        ensures out[i].value.Number? <==> value.members[i].value.Number?
        ensures value.members[i].value.Number? ==> out[i].value == value.members[i].value
      {
        NumberStays(value.members[i].value, Some(value.members[i].key));
      }
      NumbersFound(value.members, out, key);
    }
  }

  lemma OrdersKept(value: Json)
    requires Normalize(value, None).Some?
    ensures RuleOrder(Normalize(value, None).value) == RuleOrder(value)
    ensures EntryOrder(Normalize(value, None).value) == EntryOrder(value)
    ensures GetU64(Normalize(value, None).value, INDEX) == GetU64(value, INDEX)
  {
    NumbersKept(value, None, ID_LENGTH);
    NumbersKept(value, None, ID_VALUE);
    NumbersKept(value, None, INDEX);
  }

  // ---------- when it fails ----------

  /** Some entry list in the tree has a missing or repeated index. */
  ghost predicate BadEntryList(value: Json, key: Option<string>) {
    match value
    case Object(members) => exists i :: 0 <= i < |members| && BadEntryList(members[i].value, Some(members[i].key))
    case Array(items) =>
      (exists i :: 0 <= i < |items| && BadEntryList(items[i], None)) || (key == Some(ENTRIES) && !IndexedEntries(items))
    case _ => false
  }

  lemma IndexedPermute(xs: seq<Json>, ys: seq<Json>)
    requires multiset(xs) == multiset(ys) && IndexedEntries(xs)
    ensures IndexedEntries(ys) && DistinctKeys(EntryOrder, xs)
  {
    forall i | 0 <= i < |ys| ensures GetU64(ys[i], INDEX).Some? {
      InMultiset(xs, ys, ys[i]);
    }
    forall i, j | 0 <= i < j < |xs| ensures EntryOrder(xs[i]) != EntryOrder(xs[j]) {
      assert GetU64(xs[i], INDEX) != GetU64(xs[j], INDEX);
    }
    DistinctKeysPermute(EntryOrder, xs, ys);
    forall i, j | 0 <= i < j < |ys| ensures GetU64(ys[i], INDEX) != GetU64(ys[j], INDEX) {
      assert EntryOrder(ys[i]) != EntryOrder(ys[j]);
    }
  }

  lemma SortedIndexed(items: seq<Json>)
    ensures IndexedEntries(SortBy(EntryOrder, items)) <==> IndexedEntries(items)
  {
    SortPermutes(EntryOrder, items);
    if IndexedEntries(items) {
      IndexedPermute(items, SortBy(EntryOrder, items));
    }
    if IndexedEntries(SortBy(EntryOrder, items)) {
      IndexedPermute(SortBy(EntryOrder, items), items);
    }
  }

  lemma IndexedElementwise(xs: seq<Json>, ys: seq<Json>)
    requires |xs| == |ys| && forall i :: 0 <= i < |xs| ==> Normalize(xs[i], None) == Some(ys[i])
    ensures IndexedEntries(ys) <==> IndexedEntries(xs)
  {
    forall i | 0 <= i < |xs| ensures GetU64(ys[i], INDEX) == GetU64(xs[i], INDEX) {
      OrdersKept(xs[i]);
    }
  }

  lemma MembersFailIff(members: seq<Member>)
    requires forall i :: 0 <= i < |members| ==>
               (Normalize(members[i].value, Some(members[i].key)).None? <==>
                BadEntryList(members[i].value, Some(members[i].key)))
    ensures NormalizeMembers(members).None? <==>
            exists i :: 0 <= i < |members| && BadEntryList(members[i].value, Some(members[i].key))
  {
    MembersMeaning(members);
  }

  lemma ItemsFailIff(items: seq<Json>)
    requires forall i :: 0 <= i < |items| ==> (Normalize(items[i], None).None? <==> BadEntryList(items[i], None))
    ensures NormalizeItems(items).None? <==> exists i :: 0 <= i < |items| && BadEntryList(items[i], None)
    ensures NormalizeItems(items).Some? ==>
              (IndexedEntries(SortBy(EntryOrder, NormalizeItems(items).value)) <==> IndexedEntries(items))
  {
    ItemsMeaning(items);
    if NormalizeItems(items).Some? {
      IndexedElementwise(items, NormalizeItems(items).value);
      SortedIndexed(NormalizeItems(items).value);
    }
  }

  /** Normalisation fails exactly when some entry list has a missing or repeated numeric index. */
  lemma {:induction false} FailsIff(value: Json, key: Option<string>)
    ensures Normalize(value, key).None? <==> BadEntryList(value, key)
    decreases value
  {
    match value {
      case Object(members) =>
        forall i | 0 <= i < |members|
          ensures Normalize(members[i].value, Some(members[i].key)).None? <==>
                  BadEntryList(members[i].value, Some(members[i].key))
        {
          FailsIff(members[i].value, Some(members[i].key));
        }
        MembersFailIff(members);
      case Array(items) =>
        forall i | 0 <= i < |items| ensures Normalize(items[i], None).None? <==> BadEntryList(items[i], None) {
          FailsIff(items[i], None);
        }
        ArrayFailsIff(items, key);
      case _ =>
    }
  }

  lemma ArrayFailsIff(items: seq<Json>, key: Option<string>)
    requires forall i :: 0 <= i < |items| ==> (Normalize(items[i], None).None? <==> BadEntryList(items[i], None))
    ensures Normalize(Array(items), key).None? <==> BadEntryList(Array(items), key)
  {
    ItemsFailIff(items);
  }

  // ---------- it only permutes ----------

  ghost predicate Permutation(p: seq<nat>) {
    && (forall i :: 0 <= i < |p| ==> p[i] < |p|)
    && (forall i, j :: 0 <= i < j < |p| ==> p[i] != p[j])
  }

  /** `b` is `a` with the members of rule and entry lists in another order, at any depth. */
  ghost predicate Rearranged(a: Json, b: Json, key: Option<string>)
    decreases a, 1
  {
    match a
    case Object(ms) =>
      && b.Object? && |b.members| == |ms|
      && forall i :: 0 <= i < |ms| ==>
           b.members[i].key == ms[i].key && Rearranged(ms[i].value, b.members[i].value, Some(ms[i].key))
    case Array(items) =>
      b.Array? && if key == Some(RULE) || key == Some(ENTRIES) then exists p :: RearrangedBy(items, b.items, p)
                  else RearrangedBy(items, b.items, Identity(|items|))
    case _ => a == b
  }

  ghost predicate RearrangedBy(a: seq<Json>, b: seq<Json>, p: seq<nat>)
    decreases a, 0
  {
    |a| == |b| == |p| && Permutation(p) && forall i :: 0 <= i < |p| ==> Rearranged(a[p[i]], b[i], None)
  }

  function Identity(n: nat): (p: seq<nat>)
    ensures |p| == n && forall i :: 0 <= i < n ==> p[i] == i
  {
    seq(n, i => i)
  }

  /** Inserting a new last index keeps a permutation one. */
  lemma InsertIndex(q: seq<nat>, k: nat) returns (p: seq<nat>)
    requires Permutation(q) && k <= |q|
    ensures p == q[..k] + [|q|] + q[k..] && Permutation(p)
  {
    p := q[..k] + [|q|] + q[k..];
    forall i, j | 0 <= i < j < |p| ensures p[i] != p[j] {
      assert p[i] == if i < k then q[i] else if i == k then |q| else q[i - 1];
      assert p[j] == if j < k then q[j] else if j == k then |q| else q[j - 1];
    }
  }

  lemma {:induction false} SortPermutation(key: Json -> Key, xs: seq<Json>) returns (p: seq<nat>)
    ensures |p| == |xs| == |SortBy(key, xs)| && Permutation(p)
    ensures forall i :: 0 <= i < |p| ==> SortBy(key, xs)[i] == xs[p[i]]
  {
    if xs == [] {
      p := [];
    } else {
      var n := |xs| - 1;
      var sorted := SortBy(key, xs[..n]);
      var q := SortPermutation(key, xs[..n]);
      var k := InsertPosition(key, xs[n], sorted);
      p := InsertIndex(q, k);
      InsertedFollows(sorted, xs, q, k);
    }
  }

  lemma InsertedFollows(sorted: seq<Json>, xs: seq<Json>, q: seq<nat>, k: nat)
    requires |xs| == |q| + 1 && |sorted| == |q| && k <= |q|
    requires forall i :: 0 <= i < |q| ==> q[i] < |q| && sorted[i] == xs[..|q|][q[i]]
    ensures var p := q[..k] + [|q|] + q[k..];
            var out := sorted[..k] + [xs[|q|]] + sorted[k..];
            |out| == |p| && forall i :: 0 <= i < |p| ==> p[i] < |xs| && out[i] == xs[p[i]]
  {
  }

  lemma ArrangePermutes(items: seq<Json>, key: Option<string>) returns (p: seq<nat>)
    requires Arrange(items, key).Some?
    ensures |p| == |items| == |Arrange(items, key).value| && Permutation(p)
    ensures forall i :: 0 <= i < |p| ==> Arrange(items, key).value[i] == items[p[i]]
    ensures key != Some(RULE) && key != Some(ENTRIES) ==> p == Identity(|items|)
  {
    if key == Some(RULE) {
      p := SortPermutation(RuleOrder, items);
    } else if key == Some(ENTRIES) {
      p := SortPermutation(EntryOrder, items);
    } else {
      p := Identity(|items|);
    }
  }

  /** Normalisation only reorders rule and entry lists. */
  lemma {:induction false} OnlyRearranges(value: Json, key: Option<string>)
    requires Normalize(value, key).Some?
    ensures Rearranged(value, Normalize(value, key).value, key)
    decreases value
  {
    match value {
      case Object(members) =>
        MembersMeaning(members);
        forall i | 0 <= i < |members|
          ensures Rearranged(members[i].value, NormalizeMembers(members).value[i].value, Some(members[i].key))
        {
          OnlyRearranges(members[i].value, Some(members[i].key));
        }
      case Array(items) =>
        ItemsMeaning(items);
        var out := NormalizeItems(items).value;
        var arranged := Arrange(out, key).value;
        var p := ArrangePermutes(out, key);
        forall i | 0 <= i < |p| ensures Rearranged(items[p[i]], arranged[i], None) {
          OnlyRearranges(items[p[i]], None);
        }
        assert RearrangedBy(items, arranged, p);
      case _ =>
    }
  }

  // ---------- it is idempotent ----------

  lemma ArrangedIsFixed(items: seq<Json>, key: Option<string>)
    requires Arrange(items, key).Some?
    ensures Arrange(Arrange(items, key).value, key) == Arrange(items, key)
  {
    if key == Some(RULE) {
      SortSorts(RuleOrder, items);
      SortedIsFixed(RuleOrder, SortBy(RuleOrder, items));
    } else if key == Some(ENTRIES) {
      SortSorts(EntryOrder, items);
      SortedIsFixed(EntryOrder, SortBy(EntryOrder, items));
    }
  }

  lemma FixedItems(items: seq<Json>)
    requires forall i :: 0 <= i < |items| ==> Normalize(items[i], None) == Some(items[i])
    ensures NormalizeItems(items) == Some(items)
  {
    ItemsMeaning(items);
    assert NormalizeItems(items).value == items;
  }

  /** Normalising again changes nothing. */
  lemma {:induction false} Idempotent(value: Json, key: Option<string>)
    requires Normalize(value, key).Some?
    ensures Normalize(Normalize(value, key).value, key) == Normalize(value, key)
    decreases value
  {
    match value {
      case Object(members) =>
        MembersMeaning(members);
        var out := NormalizeMembers(members).value;
        forall i | 0 <= i < |members| ensures Normalize(out[i].value, Some(out[i].key)) == Some(out[i].value) {
          Idempotent(members[i].value, Some(members[i].key));
        }
        MembersMeaning(out);
        assert NormalizeMembers(out).value == out;
      case Array(items) =>
        ItemsMeaning(items);
        var out := NormalizeItems(items).value;
        var arranged := Arrange(out, key).value;
        var p := ArrangePermutes(out, key);
        forall i | 0 <= i < |arranged| ensures Normalize(arranged[i], None) == Some(arranged[i]) {
          Idempotent(items[p[i]], None);
        }
        FixedItems(arranged);
        ArrangedIsFixed(out, key);
      case _ =>
    }
  }

  // ---------- it sorts ----------

  ghost predicate NotAfter(a: Json, b: Json, major: string, minor: string) {
    var x, y := OrZero(GetU64(a, major)), OrZero(GetU64(b, major));
    x < y || (x == y && OrZero(GetU64(a, minor)) <= OrZero(GetU64(b, minor)))
  }

  /** In a normal form, rules rise by length and then value, a missing number counting zero, and entries rise strictly
      by index. */
  lemma NormalFormIsSorted(value: Json, key: Option<string>)
    requires value.Array? && Normalize(value, key).Some?
    ensures Normalize(value, key).value.Array?
    ensures var out := Normalize(value, key).value.items;
            && (key == Some("rule") ==> forall i, j :: 0 <= i < j < |out| ==>
                  NotAfter(out[i], out[j], "rule-id-length", "rule-id-value"))
            && (key == Some("entry-universal") ==> forall i, j :: 0 <= i < j < |out| ==>
                  GetU64(out[i], "entry-index").Some? && GetU64(out[j], "entry-index").Some?
                  && GetU64(out[i], "entry-index").value < GetU64(out[j], "entry-index").value)
  {
    var items := NormalizeItems(value.items).value;
    SortSorts(RuleOrder, items);
    SortSorts(EntryOrder, items);
    var out := Normalize(value, key).value.items;
    if key == Some(RULE) {
      forall i, j | 0 <= i < j < |out| ensures NotAfter(out[i], out[j], ID_LENGTH, ID_VALUE) {
        assert RuleOrder(out[i]).AtMost(RuleOrder(out[j]));
      }
    } else if key == Some(ENTRIES) {
      forall i, j | 0 <= i < j < |out| ensures GetU64(out[i], INDEX).value < GetU64(out[j], INDEX).value {
        assert EntryOrder(out[i]).AtMost(EntryOrder(out[j]));
        assert GetU64(out[i], INDEX) != GetU64(out[j], INDEX);
      }
    }
  }

  // ---------- it is canonical ----------

  /** No two members of a rule list have the same RuleID, at any depth. */
  ghost predicate UniqueRuleKeys(value: Json, key: Option<string>) {
    match value
    case Object(members) => forall i :: 0 <= i < |members| ==> UniqueRuleKeys(members[i].value, Some(members[i].key))
    case Array(items) =>
      && (forall i :: 0 <= i < |items| ==> UniqueRuleKeys(items[i], None))
      && (key == Some(RULE) ==> DistinctKeys(RuleOrder, items))
    case _ => true
  }

  lemma {:induction false} PermutedMultiset<T>(xs: seq<T>, ys: seq<T>, p: seq<nat>)
    requires |xs| == |ys| == |p| && Permutation(p)
    requires forall i :: 0 <= i < |p| ==> ys[i] == xs[p[i]]
    ensures multiset(xs) == multiset(ys)
  {
    if p != [] {
      var n := |p| - 1;
      var q := p[n];
      var rest := xs[..q] + xs[q + 1..];
      var p' := seq(n, i requires 0 <= i < n => if p[i] < q then p[i] else p[i] - 1);
      forall i | 0 <= i < n ensures p'[i] < n && ys[i] == rest[p'[i]] {
        assert p[i] != p[n];
      }
      forall i, j | 0 <= i < j < n ensures p'[i] != p'[j] {
        assert p[i] != p[j] && p[i] != p[n] && p[j] != p[n];
      }
      PermutedMultiset(rest, ys[..n], p');
      assert xs == xs[..q] + [xs[q]] + xs[q + 1..];
      assert ys == ys[..n] + [ys[n]];
    }
  }

  /** Lists with the same normalised members are arranged alike. */
  lemma ArrangeIgnoresOrder(xs: seq<Json>, ys: seq<Json>, key: Option<string>)
    requires multiset(xs) == multiset(ys) && (key == Some(RULE) || key == Some(ENTRIES))
    requires key == Some(RULE) ==> DistinctKeys(RuleOrder, xs)
    ensures Arrange(xs, key) == Arrange(ys, key)
  {
    if key == Some(RULE) {
      SortIgnoresOrder(RuleOrder, xs, ys);
    } else {
      SortedIndexed(xs);
      SortedIndexed(ys);
      if IndexedEntries(xs) {
        IndexedPermute(xs, ys);
        SortIgnoresOrder(EntryOrder, xs, ys);
      } else if IndexedEntries(ys) {
        IndexedPermute(ys, xs);
      }
    }
  }

  lemma DistinctElementwise(xs: seq<Json>, ys: seq<Json>)
    requires |xs| == |ys| && forall i :: 0 <= i < |xs| ==> Normalize(xs[i], None) == Some(ys[i])
    requires DistinctKeys(RuleOrder, xs)
    ensures DistinctKeys(RuleOrder, ys)
  {
    forall i, j | 0 <= i < j < |ys| ensures RuleOrder(ys[i]) != RuleOrder(ys[j]) {
      OrdersKept(xs[i]);
      OrdersKept(xs[j]);
    }
  }

  /** A permutation reaches every index. */
  lemma Preimage(p: seq<nat>, i: nat) returns (k: nat)
    requires Permutation(p) && i < |p|
    ensures k < |p| && p[k] == i
  {
    var all := Identity(|p|);
    PermutedMultiset(all, p, p);
    assert all[i] in all;
    InMultiset(all, p, i);
    k :| 0 <= k < |p| && p[k] == i;
  }

  /** What each item of a list becomes. */
  ghost function Outcomes(items: seq<Json>): (r: seq<Option<Json>>)
    ensures |r| == |items| && forall i :: 0 <= i < |items| ==> r[i] == Normalize(items[i], None)
  {
    seq(|items|, i requires 0 <= i < |items| => Normalize(items[i], None))
  }

  ghost predicate AllPresent(outcomes: seq<Option<Json>>) {
    forall i :: 0 <= i < |outcomes| ==> outcomes[i].Some?
  }

  function Values(outcomes: seq<Option<Json>>): (r: seq<Json>)
    requires forall i :: 0 <= i < |outcomes| ==> outcomes[i].Some?
  {
    seq(|outcomes|, i requires 0 <= i < |outcomes| => outcomes[i].value)
  }

  lemma OutcomesMeaning(items: seq<Json>)
    ensures NormalizeItems(items) == if AllPresent(Outcomes(items)) then Some(Values(Outcomes(items))) else None
  {
    ItemsMeaning(items);
    var outcomes := Outcomes(items);
    assert AllPresent(outcomes) ==> forall i :: 0 <= i < |items| ==> outcomes[i] == Normalize(items[i], None);
    if NormalizeItems(items).Some? {
      forall i | 0 <= i < |items| ensures outcomes[i] == Some(NormalizeItems(items).value[i]) {
      }
      assert Values(outcomes) == NormalizeItems(items).value;
    }
  }

  /** Reordered outcomes are all present together. */
  lemma PresentPermutes(xs: seq<Option<Json>>, ys: seq<Option<Json>>, p: seq<nat>)
    requires |xs| == |ys| == |p| && Permutation(p)
    requires forall i :: 0 <= i < |p| ==> ys[i] == xs[p[i]]
    ensures AllPresent(xs) == AllPresent(ys)
  {
    if AllPresent(ys) {
      forall i | 0 <= i < |xs| ensures xs[i].Some? {
        var k := Preimage(p, i);
        assert ys[k].Some?;
      }
    }
  }

  /** Reordered outcomes, all present or not, are arranged alike. */
  lemma OutcomesArrangeAlike(xs: seq<Option<Json>>, ys: seq<Option<Json>>, p: seq<nat>, key: Option<string>)
    requires |xs| == |ys| == |p| && Permutation(p)
    requires AllPresent(xs) && AllPresent(ys)
    requires forall i :: 0 <= i < |p| ==> ys[i] == xs[p[i]]
    requires key == Some(RULE) ==> DistinctKeys(RuleOrder, Values(xs))
    requires key != Some(RULE) && key != Some(ENTRIES) ==> p == Identity(|xs|)
    ensures Arrange(Values(xs), key) == Arrange(Values(ys), key)
  {
    if key == Some(RULE) || key == Some(ENTRIES) {
      PermutedMultiset(Values(xs), Values(ys), p);
      ArrangeIgnoresOrder(Values(xs), Values(ys), key);
    } else {
      assert Values(xs) == Values(ys);
    }
  }

  /** The list case: reordered lists whose members normalise alike. */
  lemma ListsNormalizeAlike(a: seq<Json>, b: seq<Json>, p: seq<nat>, key: Option<string>)
    requires |a| == |b| == |p| && Permutation(p)
    requires forall i :: 0 <= i < |p| ==> Outcomes(b)[i] == Outcomes(a)[p[i]]
    requires key == Some(RULE) ==> DistinctKeys(RuleOrder, a)
    requires key != Some(RULE) && key != Some(ENTRIES) ==> p == Identity(|a|)
    ensures Normalize(Array(a), key) == Normalize(Array(b), key)
  {
    var xs, ys := Outcomes(a), Outcomes(b);
    OutcomesMeaning(a);
    OutcomesMeaning(b);
    PresentPermutes(xs, ys, p);
    if AllPresent(xs) {
      if key == Some(RULE) {
        DistinctElementwise(a, Values(xs));
      }
      OutcomesArrangeAlike(xs, ys, p, key);
    }
  }

  /** Trees that differ only in the order of rule and entry lists normalise to the same tree, or both fail. */
  lemma {:induction false} NormalFormIsCanonical(a: Json, b: Json, key: Option<string>)
    requires Rearranged(a, b, key) && UniqueRuleKeys(a, key)
    ensures Normalize(a, key) == Normalize(b, key)
    decreases a
  {
    match a {
      case Object(members) =>
        forall i | 0 <= i < |members|
          ensures Normalize(members[i].value, Some(members[i].key))
            == Normalize(b.members[i].value, Some(b.members[i].key))
        {
          NormalFormIsCanonical(members[i].value, b.members[i].value, Some(members[i].key));
        }
        MembersNormalizeAlike(members, b.members);
      case Array(items) =>
        var p := ArrangementOf(items, b.items, key);
        forall i | 0 <= i < |p| ensures Outcomes(b.items)[i] == Outcomes(items)[p[i]] {
          NormalFormIsCanonical(items[p[i]], b.items[i], None);
        }
        ListsNormalizeAlike(items, b.items, p, key);
      case _ =>
    }
  }

  lemma ArrangementOf(a: seq<Json>, b: seq<Json>, key: Option<string>) returns (p: seq<nat>)
    requires Rearranged(Array(a), Array(b), key)
    ensures RearrangedBy(a, b, p)
    ensures key != Some(RULE) && key != Some(ENTRIES) ==> p == Identity(|a|)
  {
    if key == Some(RULE) || key == Some(ENTRIES) {
      p :| RearrangedBy(a, b, p);
    } else {
      p := Identity(|a|);
    }
  }

  lemma MembersNormalizeAlike(a: seq<Member>, b: seq<Member>)
    requires |a| == |b|
    requires forall i :: 0 <= i < |a| ==>
               b[i].key == a[i].key && Normalize(a[i].value, Some(a[i].key)) == Normalize(b[i].value, Some(b[i].key))
    ensures NormalizeMembers(a) == NormalizeMembers(b)
  {
    MembersMeaning(a);
    MembersMeaning(b);
    if NormalizeMembers(a).Some? {
      forall i | 0 <= i < |b| ensures Normalize(b[i].value, Some(b[i].key)).Some? {
        assert Normalize(a[i].value, Some(a[i].key)).Some?;
      }
      assert NormalizeMembers(a).value == NormalizeMembers(b).value;
    }
  }
}
