/**
 The core console and its two copies of the context: a command is sent to the device first and
 applied locally only afterwards. Messages can be lost in either direction, and other writers
 may publish on the core while the console waits.
 */
module Replicas {
  import opened Bits
  import opened Wrappers
  import opened RuleIds
  import opened RuleModel
  import opened Policy
  import opened TargetValues
  import opened Paths
  import opened Overrides
  import opened Context
  import opened Management
  import opened Patches
  import opened Sender
  import opened Runs

  // ---------- other writers ----------

  ghost function PublishAll(recipe: Recipe, s: Snapshot, candidates: seq<Tree>): Snapshot {
    if candidates == [] then s
    else PublishStep(recipe, PublishAll(recipe, s, candidates[..|candidates| - 1]), candidates[|candidates| - 1])
  }

  method OtherWriters(active: ActiveContext, candidates: seq<Tree>)
    requires active.Valid()
    modifies active
    ensures active.Valid() && active.snapshot == PublishAll(active.recipe, old(active.snapshot), candidates)
  {
    var i := 0;
    while i < |candidates|
      invariant 0 <= i <= |candidates| && active.Valid()
      invariant active.snapshot == PublishAll(active.recipe, old(active.snapshot), candidates[..i])
    {
      assert candidates[..i + 1][..i] == candidates[..i];
      var _ := active.TryPublish(candidates[i]);
      i := i + 1;
    }
    assert candidates[..i] == candidates;
  }

  /** How many of the candidates are published when they are tried in this order. */
  ghost function PublishedOf(recipe: Recipe, s: Snapshot, candidates: seq<Tree>): nat {
    if candidates == [] then 0
    else
      var init, last := candidates[..|candidates| - 1], candidates[|candidates| - 1];
      PublishedOf(recipe, s, init) + if Admissible(recipe, PublishAll(recipe, s, init).tree, last) then 1 else 0
  }

  /** The generation counts the publications, so an unchanged one means an unchanged snapshot. */
  lemma {:induction false} GenerationTells(recipe: Recipe, s: Snapshot, candidates: seq<Tree>)
    ensures PublishAll(recipe, s, candidates).generation == s.generation + PublishedOf(recipe, s, candidates)
    ensures PublishedOf(recipe, s, candidates) == 0 ==> PublishAll(recipe, s, candidates) == s
  {
    if candidates != [] {
      GenerationTells(recipe, s, candidates[..|candidates| - 1]);
    }
  }

  // ---------- rule update ----------

  datatype UpdateCommand = UpdateCommand(rule: RuleId, entry: u64, targetValue: string, ifMatch: bool)

  /** What became of the exchange with the device. */
  datatype Exchange = RequestLost | ResponseLost | Answered

  datatype UpdateResult = RejectedLocally | DeviceFailed | DeviceRejected(code: Code) | Divergence | Updated

  datatype Resolved = Resolved(target: TargetPath, bytes: seq<byte>)

  /** The one member of a target list, if it has exactly one. */
  function OnlyTarget(t: TargetValue): Option<seq<byte>> {
    match t
    case NoTarget => None
    case Bytes(b) => Some(b)
    case Mapping(list) => if |list| == 1 then Some(list[0]) else None
  }

  /** Resolves a command against one snapshot: an ordinary existing rule, one entry with one target value,
      and a decimal value of its width. */
  function Resolve(tree: Tree, command: UpdateCommand, isProtected: bool): Option<Resolved> {
    if isProtected then None
    else
      var rule := FindRule(tree.rules, command.rule);
      if rule.None? then None
      else
        var entry := FindEntry(rule.value.entries, command.entry);
        if entry.None? then None
        else
          var current := OnlyTarget(entry.value.target);
          if current.None? then None
          else
            var length := match entry.value.length case FixedBits(b) => Some(b) case Variable => None;
            var bytes := NumericTarget(command.targetValue, current.value, length);
            if bytes.None? then None else Some(Resolved(TargetPath(command.rule, command.entry, 0), bytes.value))
  }

  datatype Pair = Pair(core: Snapshot, device: Snapshot)

  /** The whole command on both copies. `during` and `after` are what other writers try to publish on the core
      while the device is asked, and between the local application and the final check. */
  ghost function UpdateStep(core: Recipe, device: Recipe, p: Pair, command: UpdateCommand, exchange: Exchange,
                            during: seq<Tree>, after: seq<Tree>): (Pair, UpdateResult)
  {
    var resolved := Resolve(p.core.tree, command, IsManagement(p.core.tree.rules, command.rule));
    if resolved.None? then (p, RejectedLocally)
    else
      var request := DatagramOf(core, p.core, resolved.value, command.ifMatch);
      ExchangeStep(core, device, p, request, exchange, during, after)
  }

  /** The datagram of a resolved update, guarded by the tag of the context it was resolved in when asked. */
  ghost function DatagramOf(core: Recipe, s: Snapshot, r: Resolved, ifMatch: bool): PatchRequest {
    PatchOf(core.sids, r.target, r.bytes, if ifMatch then Some(core.TagOf(s.tree)) else None)
  }

  /** Device first; the core only after 2.04. */
  ghost function ExchangeStep(core: Recipe, device: Recipe, p: Pair, request: PatchRequest, exchange: Exchange,
                              during: seq<Tree>, after: seq<Tree>): (Pair, UpdateResult)
  {
    var (d, code) := if exchange == RequestLost then (p.device, Conflict) else PatchStep(device, p.device, request);
    var c := PublishAll(core, p.core, during);
    if exchange != Answered then (Pair(c, d), DeviceFailed)
    else if code != Changed then (Pair(c, d), DeviceRejected(code))
    else
      var (end, result) := UpdateLocally(core, c, request, p.core.generation, after);
      (Pair(end, d), result)
  }

  /** The local application of an accepted patch, and the check that it was the only publication. */
  ghost function UpdateLocally(recipe: Recipe, s: Snapshot, request: PatchRequest, generation: nat, after: seq<Tree>)
    : (Snapshot, UpdateResult)
  {
    var (local, code) := PatchStep(recipe, s, request);
    if code != Changed then (local, Divergence)
    else
      var end := PublishAll(recipe, local, after);
      (end, if end.generation == generation + 1 then Updated else Divergence)
  }

  const MESSAGE_ID_MODULUS: nat := 128

  /** The identifier after `id`, within the window. */
  function Following(id: nat): (next: nat)
    ensures next < MESSAGE_ID_MODULUS
  {
    if id >= MESSAGE_ID_MODULUS then 1 else (id + 1) % MESSAGE_ID_MODULUS
  }

  class CoreConsole {
    const core: InspectionService
    const device: InspectionService
    var nextMessageId: nat

    predicate Valid()
      reads core.active, device.active
    {
      core.active != device.active && core.active.Valid() && device.active.Valid()
    }

    constructor (core: InspectionService, device: InspectionService)
      ensures this.core == core && this.device == device && nextMessageId == 1
    {
      this.core := core;
      this.device := device;
      nextMessageId := 1;
    }

    method NextMessageId() returns (id: nat)
      modifies this`nextMessageId
      ensures id == (if old(nextMessageId) >= MESSAGE_ID_MODULUS then 0 else old(nextMessageId))
      ensures nextMessageId == Following(old(nextMessageId))
    {
      if nextMessageId >= MESSAGE_ID_MODULUS {
        nextMessageId := 0;
      }
      id := nextMessageId;
      nextMessageId := (nextMessageId + 1) % MESSAGE_ID_MODULUS;
    }

    method SendPatch(request: PatchRequest, exchange: Exchange) returns (code: Option<Code>)
      requires device.active.Valid()
      modifies device.active
      ensures device.active.Valid()
      ensures exchange == RequestLost ==> device.active.snapshot == old(device.active.snapshot) && code == None
      ensures exchange != RequestLost ==>
                var (s, c) := PatchStep(device.active.recipe, old(device.active.snapshot), request);
                device.active.snapshot == s && code == if exchange == Answered then Some(c) else None
    {
      if exchange == RequestLost {
        return None;
      }
      var c := device.ApplyTargetIpatch(request);
      return if exchange == Answered then Some(c) else None;
    }

    /** Device first, then local, then a check that exactly one publication happened. */
    method ExecuteRuleUpdate(command: UpdateCommand, exchange: Exchange, during: seq<Tree>, after: seq<Tree>)
      returns (result: UpdateResult)
      requires Valid()
      modifies this`nextMessageId, core.active, device.active
      ensures Valid()
      ensures (Pair(core.active.snapshot, device.active.snapshot), result) ==
              UpdateStep(core.active.recipe, device.active.recipe,
                         Pair(old(core.active.snapshot), old(device.active.snapshot)), command, exchange, during, after)
      ensures nextMessageId == if result == RejectedLocally then old(nextMessageId) else Following(old(nextMessageId))
    {
      var snapshot := core.active.snapshot;
      var isProtected := Policy.Contains(ProtectedOf(snapshot.tree.rules), command.rule);
      ContainsIsManagement(snapshot.tree.rules, command.rule);
      var resolved := Resolve(snapshot.tree, command, isProtected);
      if resolved.None? {
        return RejectedLocally;
      }
      var baseTag := if command.ifMatch then Some(core.active.Tag()) else None;
      var _ := NextMessageId();
      var request := PatchOf(core.active.recipe.sids, resolved.value.target, resolved.value.bytes, baseTag);
      result := PerformExchange(request, exchange, during, after);
    }

    /** The exchange with the device, and the local application after 2.04. */
    method PerformExchange(request: PatchRequest, exchange: Exchange, during: seq<Tree>, after: seq<Tree>)
      returns (result: UpdateResult)
      requires Valid()
      modifies core.active, device.active
      ensures Valid() && result != RejectedLocally
      ensures (Pair(core.active.snapshot, device.active.snapshot), result) ==
              ExchangeStep(core.active.recipe, device.active.recipe,
                           Pair(old(core.active.snapshot), old(device.active.snapshot)),
                           request, exchange, during, after)
    {
      var generation := core.active.snapshot.generation;
      var code := SendPatch(request, exchange);
      OtherWriters(core.active, during);
      if code.None? {
        return DeviceFailed;
      }
      if code.value != Changed {
        return DeviceRejected(code.value);
      }
      result := ApplyPatch(request, generation, after);
    }

    /** The local application, and whether it published exactly once since `generation`. */
    method ApplyPatch(request: PatchRequest, generation: nat, after: seq<Tree>) returns (result: UpdateResult)
      requires core.active.Valid()
      modifies core.active
      ensures core.active.Valid()
      ensures (core.active.snapshot, result) ==
              UpdateLocally(core.active.recipe, old(core.active.snapshot), request, generation, after)
    {
      var localCode := core.ApplyTargetIpatch(request);
      if localCode != Changed {
        return Divergence;
      }
      OtherWriters(core.active, after);
      return if core.active.snapshot.generation == generation + 1 then Updated else Divergence;
    }

    /** One-way to the device, then local; the generation before and after the local application tells the report. */
    method ExecuteRuleDuplicate(command: DuplicateCommand, transmission: Transmission, during: seq<Tree>,
                                between: seq<Tree>, after: seq<Tree>)
      returns (result: DuplicateReport)
      requires Valid()
      modifies this`nextMessageId, core.active, device.active
      ensures Valid()
      ensures (Pair(core.active.snapshot, device.active.snapshot), result) ==
              CopyStep(core.active.recipe, device.active.recipe,
                       Pair(old(core.active.snapshot), old(device.active.snapshot)),
                       command, transmission, during, between, after)
      ensures nextMessageId == Following(old(nextMessageId))
    {
      var tree := core.active.snapshot.tree;
      var protected := ProtectedOf(tree.rules);
      ContainsIsManagement(tree.rules, command.source);
      ContainsIsManagement(tree.rules, command.destination);
      var _ := NextMessageId();
      var request := BuildRequest(tree, command, core.active.recipe.sids,
                                  Policy.Contains(protected, command.source)
                                  || Policy.Contains(protected, command.destination));
      if request.None? {
        return NotBuilt;
      }
      if transmission == Received {
        var _ := device.ApplyDuplicateOperation(request.value);
      }
      OtherWriters(core.active, during);
      if transmission == SendFailed {
        return Unsent;
      }
      result := ApplyCopy(request.value, between, after);
    }

    /** The local application, other writers before and after it. */
    method ApplyCopy(request: DuplicateRequest, between: seq<Tree>, after: seq<Tree>) returns (result: DuplicateReport)
      requires core.active.Valid()
      modifies core.active
      ensures core.active.Valid()
      ensures var run := CopyLocally(core.active.recipe, old(core.active.snapshot), request, between, after);
              core.active.snapshot == run.end && result == ReportOf(old(core.active.snapshot), run)
    {
      var before := core.active.snapshot.generation;
      OtherWriters(core.active, between);
      var local := core.ApplyDuplicateOperation(request);
      if local == Rejected {
        return LocalFailed;
      }
      OtherWriters(core.active, after);
      return if core.active.snapshot.generation == before + 1 then Installed else AlreadyThere;
    }
  }

  /** The snapshot with exactly the resolved replacement published. */
  function Taken(s: Snapshot, r: Resolved): Snapshot {
    Snapshot(PatchTree(s.tree, r.target, r.bytes), s.generation + 1)
  }

  /** What an exchange of one resolved update leaves, by its result. A divergence means that the device has the
      replacement and that the core, as other writers left it, refused it or was published on besides. `answer` is the
      device's, if it gets the request. */
  ghost predicate Outcome(core: Recipe, p: Pair, q: Pair, r: Resolved, answer: Code, exchange: Exchange,
                          during: seq<Tree>, after: seq<Tree>, result: UpdateResult)
  {
    var c := PublishAll(core, p.core, during);
    match result
    case Updated => answer == Changed && exchange == Answered && q == Pair(Taken(p.core, r), Taken(p.device, r))
    case RejectedLocally => false
    case DeviceRejected(code) => code == answer != Changed && exchange == Answered && q == Pair(c, p.device)
    case DeviceFailed =>
      && exchange != Answered && q.core == c
      && q.device == (if exchange == ResponseLost && answer == Changed then Taken(p.device, r) else p.device)
    case Divergence =>
      && answer == Changed && exchange == Answered && q.device == Taken(p.device, r)
      && (q.core == c
          || (&& q.core == PublishAll(core, Taken(c, r), after)
              && PublishedOf(core, p.core, during) + PublishedOf(core, Taken(c, r), after) > 0))
  }

  /** The local application is the only publication exactly when the generation says so. */
  lemma OnlyPublication(recipe: Recipe, s: Snapshot, r: Resolved, tag: Option<nat>, during: seq<Tree>, after: seq<Tree>)
    requires ValidSelector(r.target.selector)
    ensures var c := PublishAll(recipe, s, during);
            var (end, result) :=
              UpdateLocally(recipe, c, PatchOf(recipe.sids, r.target, r.bytes, tag), s.generation, after);
            if result == Updated then end == Taken(s, r)
            else
              && result == Divergence
              && (end == c
                  || (&& end == PublishAll(recipe, Taken(c, r), after)
                      && PublishedOf(recipe, s, during) + PublishedOf(recipe, Taken(c, r), after) > 0))
  {
    var c := PublishAll(recipe, s, during);
    PatchOfDatagram(recipe, c, r, tag);
    GenerationTells(recipe, s, during);
    GenerationTells(recipe, Taken(c, r), after);
  }

  lemma ExchangeOutcome(core: Recipe, device: Recipe, p: Pair, r: Resolved, tag: Option<nat>, exchange: Exchange,
                        during: seq<Tree>, after: seq<Tree>)
    requires core.sids == device.sids && ValidSelector(r.target.selector)
    ensures var request := PatchOf(core.sids, r.target, r.bytes, tag);
            var (q, result) := ExchangeStep(core, device, p, request, exchange, during, after);
            var answer := TargetStep(device, p.device, r.target, r.bytes, tag).1;
            Outcome(core, p, q, r, answer, exchange, during, after, result)
  {
    PatchOfStep(device, p.device, r.target, r.bytes, tag);
    PatchOfDatagram(device, p.device, r, tag);
    OnlyPublication(core, p.core, r, tag, during, after);
  }

  /** What a successful or failed update means for the two copies. `Updated` says that nobody else published on the
      core and that both copies took the replacement the command resolves to. */
  lemma UpdateOutcome(core: Recipe, device: Recipe, p: Pair, command: UpdateCommand, exchange: Exchange,
                      during: seq<Tree>, after: seq<Tree>)
    requires core.sids == device.sids && ValidSelector(command.rule)
    ensures var (q, result) := UpdateStep(core, device, p, command, exchange, during, after);
            var resolved := Resolve(p.core.tree, command, IsManagement(p.core.tree.rules, command.rule));
            if resolved.None? then q == p && result == RejectedLocally
            else
              var tag := if command.ifMatch then Some(core.TagOf(p.core.tree)) else None;
              var answer := TargetStep(device, p.device, resolved.value.target, resolved.value.bytes, tag).1;
              Outcome(core, p, q, resolved.value, answer, exchange, during, after, result)
  {
    var resolved := Resolve(p.core.tree, command, IsManagement(p.core.tree.rules, command.rule));
    if resolved.Some? {
      ExchangeOutcome(core, device, p, resolved.value, if command.ifMatch then Some(core.TagOf(p.core.tree)) else None,
                      exchange, during, after);
    }
  }

  /** A patch datagram either changes nothing or replaces exactly the resolved target; it changes the context
      exactly when it is answered 2.04, and under If-Match only when the tags agree. */
  lemma PatchOfDatagram(recipe: Recipe, s: Snapshot, r: Resolved, tag: Option<nat>)
    requires ValidSelector(r.target.selector)
    ensures var (t, code) := PatchStep(recipe, s, PatchOf(recipe.sids, r.target, r.bytes, tag));
            if code == Changed then
              t == Snapshot(PatchTree(s.tree, r.target, r.bytes), s.generation + 1)
              && (tag.Some? ==> tag.value == recipe.TagOf(s.tree))
            else t == s
  {
    PatchOfStep(recipe, s, r.target, r.bytes, tag);
  }

  /** With If-Match, from any two contexts whose tags do not collide, success means the copies are equal; and
      without it, equal copies stay equal. */
  lemma UpdatedCopiesAgree(core: Recipe, device: Recipe, p: Pair, command: UpdateCommand, exchange: Exchange,
                           during: seq<Tree>, after: seq<Tree>)
    requires core.sids == device.sids && ValidSelector(command.rule)
    requires UpdateStep(core, device, p, command, exchange, during, after).1 == Updated
    requires p.core.tree == p.device.tree
             || (command.ifMatch
               && (core.TagOf(p.core.tree) == device.TagOf(p.device.tree) ==> p.core.tree == p.device.tree))
    ensures var q := UpdateStep(core, device, p, command, exchange, during, after).0;
            q.core.tree == q.device.tree && q.core.generation == p.core.generation + 1
  {
    UpdateOutcome(core, device, p, command, exchange, during, after);
    if command.ifMatch {
      var r := Resolve(p.core.tree, command, IsManagement(p.core.tree.rules, command.rule)).value;
      PatchOfDatagram(device, p.device, r, Some(core.TagOf(p.core.tree)));
    }
  }

  // ---------- rule duplicate ----------

  datatype DuplicateCommand = DuplicateCommand(source: RuleId, destination: RuleId, overrides: seq<RuleOverride>)

  /** What became of the one-way datagram. */
  datatype Transmission = SendFailed | Lost | Received

  datatype DuplicateReport = NotBuilt | Unsent | LocalFailed | Installed | AlreadyThere

  /** The request the console builds, checked against its own context. */
  function BuildRequest(tree: Tree, command: DuplicateCommand, sids: ModelSids,
                        touchesProtected: bool): Option<DuplicateRequest>
  {
    var source := FindRule(tree.rules, command.source);
    if source.None? || source.value.nature == Management || touchesProtected then None
    else
      var groups := IntendedGroups(source.value.entries, command.overrides);
      if groups.None? || command.source.value > U32_MAX || command.destination.value > U32_MAX then None
      else
        IntendedEncodable(source.value.entries, command.overrides, groups.value);
        Some(DuplicateRequest(command.source, command.destination,
          EncodeGroups(groups.value, command.destination, sids)))
  }

  lemma IntendedEncodable(entries: seq<Entry>, os: seq<RuleOverride>, groups: seq<seq<Write>>)
    requires IntendedGroups(entries, os) == Some(groups)
    ensures forall a :: 0 <= a < |groups| ==> Encodable(groups[a])
  {
    forall a | 0 <= a < |groups| ensures Encodable(groups[a]) {
      IntendedShape(entries, os[a]);
    }
  }

  /** The request a command stands for in a context, when the console sends one. */
  ghost function RequestOf(recipe: Recipe, tree: Tree, command: DuplicateCommand): Option<DuplicateRequest> {
    BuildRequest(tree, command, recipe.sids,
                 IsManagement(tree.rules, command.source) || IsManagement(tree.rules, command.destination))
  }

  /** The local application with other writers on both sides of it, and how many of those published. */
  datatype LocalCopy = LocalCopy(end: Snapshot, result: DuplicateResult, others: nat)

  ghost function CopyLocally(recipe: Recipe, s: Snapshot, request: DuplicateRequest, between: seq<Tree>,
                             after: seq<Tree>): LocalCopy
  {
    var before := PublishAll(recipe, s, between);
    var (local, result) := DuplicateStep(recipe, before, request);
    if result == Rejected then LocalCopy(local, result, PublishedOf(recipe, s, between))
    else
      LocalCopy(PublishAll(recipe, local, after), result,
                PublishedOf(recipe, s, between) + PublishedOf(recipe, local, after))
  }

  function ReportOf(before: Snapshot, run: LocalCopy): DuplicateReport {
    if run.result == Rejected then LocalFailed
    else if run.end.generation == before.generation + 1 then Installed
    else AlreadyThere
  }

  /** One-way to the device, then the same operation locally. Other writers may publish on the core while the
      datagram is sent (`during`), and between the two generation readings (`between` and `after`). */
  ghost function CopyStep(core: Recipe, device: Recipe, p: Pair, command: DuplicateCommand, transmission: Transmission,
                          during: seq<Tree>, between: seq<Tree>, after: seq<Tree>): (Pair, DuplicateReport)
  {
    var request := RequestOf(core, p.core.tree, command);
    if request.None? then (p, NotBuilt)
    else
      var d := if transmission == Received then DuplicateStep(device, p.device, request.value).0 else p.device;
      var c := PublishAll(core, p.core, during);
      if transmission == SendFailed then (Pair(c, d), Unsent)
      else
        var run := CopyLocally(core, c, request.value, between, after);
        (Pair(run.end, d), ReportOf(c, run))
  }

  /** A duplicate publishes exactly when it reports Applied. */
  lemma DuplicateEffect(recipe: Recipe, s: Snapshot, request: DuplicateRequest)
    ensures var (t, result) := DuplicateStep(recipe, s, request);
            if result == Applied then t.generation == s.generation + 1 else t == s
  {
  }

  /** How far the generation moves: one for an applied duplicate and one for each candidate of another writer that
      is published. */
  lemma LocalGenerations(recipe: Recipe, s: Snapshot, request: DuplicateRequest, between: seq<Tree>, after: seq<Tree>)
    ensures var run := CopyLocally(recipe, s, request, between, after);
            run.end.generation == s.generation + run.others + if run.result == Applied then 1 else 0
  {
    var before := PublishAll(recipe, s, between);
    GenerationTells(recipe, s, between);
    DuplicateEffect(recipe, before, request);
    GenerationTells(recipe, DuplicateStep(recipe, before, request).0, after);
  }

  /** The generation comparison reports rightly whether the core installed the rule exactly when nobody else
      published between the two readings, if it did, and when not exactly one other did, if it was there. */
  lemma ReportIsRight(recipe: Recipe, s: Snapshot, request: DuplicateRequest, between: seq<Tree>, after: seq<Tree>)
    requires CopyLocally(recipe, s, request, between, after).result != Rejected
    ensures var run := CopyLocally(recipe, s, request, between, after);
            (ReportOf(s, run) == Installed <==> run.result == Applied) <==>
            if run.result == Applied then run.others == 0 else run.others != 1
  {
    LocalGenerations(recipe, s, request, between, after);
  }

  /** So a destination that was already there is reported as installed when one other writer publishes right
      after. */
  lemma IdempotentReportedInstalled(recipe: Recipe, s: Snapshot, request: DuplicateRequest, other: Tree)
    requires DuplicateStep(recipe, s, request).1 == Idempotent && Admissible(recipe, s.tree, other)
    ensures var run := CopyLocally(recipe, s, request, [], [other]);
            run.result == Idempotent && run.end == Snapshot(other, s.generation + 1) && ReportOf(s, run) == Installed
  {
    DuplicateEffect(recipe, s, request);
    OnePublication(recipe, s, other);
  }

  lemma OnePublication(recipe: Recipe, s: Snapshot, other: Tree)
    requires Admissible(recipe, s.tree, other)
    ensures PublishAll(recipe, s, []) == s && PublishAll(recipe, s, [other]) == Snapshot(other, s.generation + 1)
  {
    assert [other][..0] == [];
  }

  /** An applied or confirmed duplicate is in the core until another writer publishes; what is not delivered leaves
      the device alone; and equal copies with the same recipe that both handle the request, and nobody else
      publishes on, stay equal. */
  lemma CopyOutcome(core: Recipe, device: Recipe, p: Pair, command: DuplicateCommand, transmission: Transmission,
                    during: seq<Tree>, between: seq<Tree>, after: seq<Tree>)
    ensures var (q, report) := CopyStep(core, device, p, command, transmission, during, between, after);
            && (report == NotBuilt <==> RequestOf(core, p.core.tree, command).None?)
            && (report == NotBuilt ==> q == p)
            && (report == Unsent <==> report != NotBuilt && transmission == SendFailed)
            && (report == Unsent ==> q.core == PublishAll(core, p.core, during))
            && (report == LocalFailed ==> q.core == PublishAll(core, PublishAll(core, p.core, during), between))
            && (report == Installed || report == AlreadyThere ==>
                  after == [] ==> FindRule(q.core.tree.rules, command.destination).Some?)
            && (transmission != Received ==> q.device == p.device)
            && (core == device && p.core == p.device && transmission == Received && during + between + after == [] ==>
                  q.core == q.device)
  {
    var request := RequestOf(core, p.core.tree, command);
    if request.Some? && transmission != SendFailed {
      var c := PublishAll(core, p.core, during);
      var before := PublishAll(core, c, between);
      var run := CopyLocally(core, c, request.value, between, after);
      DuplicateEffect(core, before, request.value);
      if run.result != Rejected && after == [] {
        AcceptedIsPresent(core, before, request.value);
      }
    }
  }

  lemma AloneLocally(recipe: Recipe, s: Snapshot, request: DuplicateRequest)
    ensures var (t, result) := DuplicateStep(recipe, s, request);
            CopyLocally(recipe, s, request, [], []) == LocalCopy(t, result, 0)
  {
  }

  lemma LostAlone(recipe: Recipe, s: Snapshot, command: DuplicateCommand, request: DuplicateRequest)
    requires RequestOf(recipe, s.tree, command) == Some(request)
    ensures CopyStep(recipe, recipe, Pair(s, s), command, Lost, [], [], [])
            == (Pair(CopyLocally(recipe, s, request, [], []).end, s),
                ReportOf(s, CopyLocally(recipe, s, request, [], [])))
  {
  }

  /** Without other writers a lost request leaves equal copies apart exactly when the core installed it, and
      handling the same datagram later, any number of times, makes them equal again. */
  lemma LostCopyIsRecovered(recipe: Recipe, s: Snapshot, command: DuplicateCommand, request: DuplicateRequest,
                            times: nat)
    requires RequestOf(recipe, s.tree, command) == Some(request) && times > 0
    ensures var (q, report) := CopyStep(recipe, recipe, Pair(s, s), command, Lost, [], [], []);
            && (q.core != q.device <==> report == Installed)
            && q.core == HandleTimes(recipe, q.device, request, times)
  {
    LostAlone(recipe, s, command, request);
    AloneLocally(recipe, s, request);
    DuplicateEffect(recipe, s, request);
    HandledAgain(recipe, s, request, times);
  }

  ghost function HandleTimes(recipe: Recipe, s: Snapshot, request: DuplicateRequest, times: nat): Snapshot {
    if times == 0 then s else DuplicateStep(recipe, HandleTimes(recipe, s, request, times - 1), request).0
  }

  lemma {:induction false} HandledAgain(recipe: Recipe, s: Snapshot, request: DuplicateRequest, times: nat)
    requires times > 0
    ensures HandleTimes(recipe, s, request, times) == DuplicateStep(recipe, s, request).0
  {
    if times > 1 {
      HandledAgain(recipe, s, request, times - 1);
      HandledTwice(recipe, s, request);
    }
  }

  lemma HandledTwice(recipe: Recipe, s: Snapshot, request: DuplicateRequest)
    ensures DuplicateStep(recipe, DuplicateStep(recipe, s, request).0, request).0 == DuplicateStep(recipe, s, request).0
  {
    if DuplicateStep(recipe, s, request).1 == Applied {
      AcceptedIsPresent(recipe, s, request);
      PresentIsNeverRepublished(recipe, DuplicateStep(recipe, s, request).0, request);
    } else {
      DuplicateEffect(recipe, s, request);
    }
  }
}
