# Verification of the SCHC CORECONF context core

This project models the part of `schc-coreconf` that decides what a managed SCHC context may become, and proves
that its fast forms, its state machine and its encodings mean what they promise. `dafny verify dfyconfig.toml`
checks all of it.

- `RuleIds`, `Allocation`, `FreeLeaves`, `Kraft`: RuleIDs as bit strings; the interval allocator against the tree and the bits; the counting law and runs of allocations
- `RuleModel`, `Policy`, `Context`: rules and trees; protected rules; the active context, its candidates and the compare-and-swap backend
- `TargetValues`, `Paths`, `Overrides`, `Flow`: fixed-width values; SID-delta paths; writing leaves; planning a flow change
- `Duplicate`, `Management`, `Patches`, `Copies`: decoding and applying a duplicate; the two service operations, their exact outcomes, repetitions and order
- `PacketFields`, `Requests`, `Commands`: what a plan, a request and a console command do, told without the functions that compute it
- `Sender`, `Pipeline`: building a request; a flow change from the plan to the installed rule
- `Runs`, `Deliveries`, `Plans`, `Replicas`: whole runs: protection, lost updates, repeated datagrams, planning, and the two copies the core console drives
- `Codec`, `TreeForm`, `Base64`, `Coap`, `Datagrams`: normalisation of the datastore tree; base64; the CoAP option walker and the datagrams it refuses
- `Witnesses`: concrete inputs at which conditions bite
- `Bits`, `Sorting`, `Wrappers`: machine words and powers of two; stable sorting; optional values and results

Code that changes things step by step is modelled by methods and classes and proved against a function or a
predicate; the theorems are then about those functions. Every publication happens under the writer lock, so a
method of `ActiveContext`, `ActiveContextBackend` or `InspectionService` is one atomic step, and a list of steps is
an interleaving.

The digest and the tag of a context are arbitrary functions. No theorem assumes that they are injective. Two
assume that two named trees do not collide: `Runs.NoLostUpdate`, in its clause that the overwritten tree is the one
read, for the digests of these two; and `Replicas.UpdatedCopiesAgree`, for the tags of the two starting copies.

What the source gets from packages outside the repository is a parameter: `Recipe.loads` is the part of loading a
context that is not modelled, and a write to a missing entry or leaf fails. That RuleIDs of a loaded context have 1
to 32 bits and are prefix-free is enforced there too and is part of `Context.Loadable`.

These promises hold under a condition, which is stated with an input that shows the need:

- A flow plan settles exactly when every overridden entry recognises its value (`Flow.Recognised`): `Flow.PlanSoundness`,
  with an input outside the condition in `Flow.WideMsbTargetNeverSettles`.
- A replace is published exactly when the digest last seen is the current one and the candidate is admissible
  (`Runs.NoLostUpdate`), so it can follow other publications that restored the tree: `Witnesses.RestoredTreeExists`.
- The console reports a duplicate as installed by comparing generations, which is right exactly under the condition of
  `Replicas.ReportIsRight`; `Witnesses.MisreportExists` is an input outside it.
- A duplicate datagram changes a context exactly under the condition of `Copies.DuplicateChanges`. Repetitions of those
  that were not rejected never do, wherever they arrive (`Deliveries.RepetitionsDoNotMatter`).
- The order of two applied duplicates does not matter exactly under the condition of `Copies.OrderIff`;
  `Witnesses.ChainExists` is an input outside it.
- A repeated iPATCH is refused under If-Match exactly when the tag differs (`Patches.RepeatedUnderIfMatch`), and without it
  is harmless exactly under the condition of `Patches.RepetitionHarmless`; `Witnesses.LostPatchExists` is an input
  outside it.

## Model

| member | source | states |
|---|---|---|
| `Bits.ShiftLeftExact` | crates/schc-coreconf/src/allocation.rs:196-215 | No shift of the allocator loses a bit: a value below 2^width moved by s places with width + s under 64 is the exact product, and the block after it still fits the 64-bit word. |
| `RuleIds.NewSpec` | crates/schc-coreconf/src/allocation.rs:71-87 | An explicit RuleID is accepted exactly when it has 1 to 32 bits and its value fits them. |
| `RuleIds.PrefixIsBitPrefix` | crates/schc-coreconf/src/allocation.rs:274-280 | The shift test on numbers holds exactly when the written bits of one RuleID begin the bits of the other, for all lengths up to 64. |
| `RuleIds.CommonExtensionOverlaps` | crates/schc-coreconf/src/allocation.rs:270-272 | Two RuleIDs above one leaf overlap, so RuleIDs that do not overlap have disjoint subtrees. |
| `RuleIds.PrefixIsInterval` | crates/schc-coreconf/src/allocation.rs:202-215 | The leaves below a RuleID are exactly the values of one half-open interval at their length. |
| `RuleIds.SubtreeInRange` | crates/schc-coreconf/src/allocation.rs:196-200 | A subtree has 2^(depth - length) leaves at a depth and ends within the depth and the uint32 range. |
| `Allocation.Validate` | crates/schc-coreconf/src/allocation.rs:115-137 | A namespace is accepted exactly when its prefix is explicit and it has at least one depth, all strictly below the prefix and at most 32; the accepted form has the same depths, strictly increasing. |
| `Allocation.SortedLengths` | crates/schc-coreconf/src/allocation.rs:117-118 | Sorting and removing neighbours that repeat leaves each depth once, in increasing order. |
| `Allocation.OutcomeIgnoresOrder` | crates/schc-coreconf/src/allocation.rs:145-176 | The result of an allocation depends only on which RuleIDs are occupied and which depths are allowed, not on their order or repetition. |
| `Allocation.CandidateRange` | crates/schc-coreconf/src/allocation.rs:196-200 | The shifted pair is the interval of leaves below the prefix, non-empty and within the uint32 range. |
| `Allocation.BlockOfMeaning` | crates/schc-coreconf/src/allocation.rs:202-215 | A leaf lies in the interval computed for an occupied RuleID exactly when the two overlap, whichever is longer. |
| `Allocation.ClippedIntervals` | crates/schc-coreconf/src/allocation.rs:202-219 | Inside the candidate range the clipped intervals cover exactly the leaves some occupied RuleID rules out. |
| `Allocation.MergeSorted` | crates/schc-coreconf/src/allocation.rs:220-230 | Merging sorted intervals leaves separated ones and covers exactly the same leaves. |
| `Allocation.BlockedIntervals` | crates/schc-coreconf/src/allocation.rs:202-230 | Separated intervals that cover, within the range, exactly the leaves blocked by occupied RuleIDs. |
| `Allocation.FirstFree` | crates/schc-coreconf/src/allocation.rs:232-247 | The least uncovered leaf of the range, or none exactly when every leaf is covered. |
| `Allocation.FirstFreeAtDepth` | crates/schc-coreconf/src/allocation.rs:166-173 | The least free leaf of one depth, or none when that depth has no free leaf. |
| `Allocation.ScanDepths` | crates/schc-coreconf/src/allocation.rs:166-176 | The free leaf that is least by length and then value over all depths, or Exhausted when no leaf is free. |
| `Allocation.Allocate` | crates/schc-coreconf/src/allocation.rs:145-176 | Refines the tree reading: invalid inputs, then a branch colliding with the namespace, are reported first; otherwise the result is a leaf of the namespace that overlaps no occupied RuleID and is least in (length, value) order, and Exhausted is returned exactly when no such leaf exists. |
| `FreeLeaves.OutcomeInBits` | crates/schc-coreconf/src/allocation.rs:145-176 | In written bits alone: invalid inputs first; then a collision when an occupied RuleID is comparable with the prefix without being of an allowed length below it; otherwise the least RuleID, by length and then value, that begins with the prefix and is comparable with no occupied one. |
| `Kraft.CoveredSize` | crates/schc-coreconf/src/allocation.rs:145-176 | For prefix-free RuleIDs the sum of 2^(depth - length) counts the leaves below them: no leaf is counted twice. |
| `Kraft.KraftBound` | crates/schc-coreconf/src/allocation.rs:145-176 | That sum never exceeds 2^(depth - prefix length), and reaches it exactly when every leaf of the namespace is covered. |
| `Kraft.ExhaustedIffFull` | crates/schc-coreconf/src/allocation.rs:145-176 | In a prefix-free context respecting the namespace, allocation is exhausted exactly when the sum reaches the capacity, and no other error is possible. |
| `Kraft.InstallKeepsSettled` | crates/schc-coreconf/src/allocation.rs:145-185 | Inserting the allocated RuleID anywhere keeps the context prefix-free and within its namespace. |
| `Kraft.InsertAddsWeight` | crates/schc-coreconf/src/allocation.rs:145-176 | An inserted RuleID adds exactly its own leaves to the sum. |
| `Kraft.RunIsSettled` | crates/schc-coreconf/src/allocation.rs:145-176 | Along any run of allocate-then-insert the context stays settled and each step fills at least one leaf. |
| `Kraft.RunIsBounded` | crates/schc-coreconf/src/allocation.rs:145-176 | A run has at most as many allocations as there were free leaves at its start, and the next allocation succeeds exactly while leaves remain. |
| `Policy.ProtectedAreManagement` | crates/schc-coreconf/src/policy.rs:41-82 | With unique RuleIDs, the derived protected rules are exactly the management rules with their contents. |
| `Policy.ContainsIsManagement` | crates/schc-coreconf/src/policy.rs:80-82 | A RuleID is protected exactly when some management rule has it. |
| `Policy.Derive` | crates/schc-coreconf/src/policy.rs:41-64 | Deriving never fails, and yields one protected rule per management RuleID in RuleID order. |
| `Policy.Enforce` | crates/schc-coreconf/src/policy.rs:84-109 | Comparing the counts and looking up each expected rule succeeds exactly when the two protected lists are equal. |
| `Policy.EqualSets` | crates/schc-coreconf/src/policy.rs:84-109 | The counting argument: as many rules on both sides, unique and each expected one found, leaves no room for another. |
| `Policy.EqualMapsEqualLists` | crates/schc-coreconf/src/policy.rs:84-109 | Equal maps from RuleID to protected rule and equal protected lists are the same thing. |
| `Policy.SameProtected` | crates/schc-coreconf/src/policy.rs:84-109 | Two contexts with unique RuleIDs have equal protected lists exactly when they contain the same management rules. |
| `TargetValues.BytesToU64` | crates/schc-coreconf/src/management/duplicate.rs:161-170 | Shifting in up to eight bytes never overflows and yields their big-endian value; more bytes yield nothing. |
| `TargetValues.IntegerBytesValue` | crates/schc-coreconf/src/management/duplicate.rs:155-159 | A field value below 2^bits is kept exactly by its byte form. |
| `TargetValues.BinaryFitsMeaning` | crates/schc-coreconf/src/management.rs:3229-3249 | The check of whole bytes and masked top bits holds exactly when 0 < length <= storage bits and the big-endian value is below 2^length. |
| `TargetValues.NumericTargetValue` | crates/schc-coreconf/src/management.rs:3251-3305 | The conversion succeeds exactly on decimal text whose number fits a 64-bit word, the existing width and the field, and then yields the number big-endian in exactly that width. |
| `TargetValues.FillFromEnd` | crates/schc-coreconf/src/management.rs:3288-3293 | Filling the buffer from its end writes the fixed-width big-endian form. |
| `TargetValues.DecimalRoundTrip` | crates/schc-coreconf/src/management/duplicate.rs:60-108 | The decimal text written for a number is read back as that number. |
| `TargetValues.DecimalPlaces` | crates/schc-coreconf/src/management.rs:3251-3305 | Decimal text is read by place value: the digit k places from the end counts 10^k. |
| `TargetValues.SenderMeetsValidator` | crates/schc-coreconf/src/management.rs:3229-3305 | If the current bytes fit the field, whatever the sender converts has the same width, decodes to the parsed number and passes the receiver check. |
| `TargetValues.ValidatorMeetsSender` | crates/schc-coreconf/src/management.rs:3229-3305 | Every 64-bit value the receiver accepts in that width is produced by some decimal text. |
| `Paths.ParseAcceptsCanonical` | crates/schc-coreconf/src/management.rs:2298-2379 | Parsing an iPATCH path succeeds exactly on the canonical path of a valid selector and returns the keys it was built from. |
| `Paths.LeafFromPath` | crates/schc-coreconf/src/management/duplicate.rs:432-504 | One walk over the components, adding deltas and collecting keys, decides the override path. |
| `Paths.OverrideComponents` | crates/schc-coreconf/src/management/duplicate.rs:506-535 | The constructed override path component by component: which deltas between which SIDs, and which keys. |
| `Paths.LeafRoundTrip` | crates/schc-coreconf/src/management/duplicate.rs:432-535 | Every constructed override path is read back as its entry and leaf, exactly when the SIDs of the two scalar leaves differ or the leaf is not the later one. |
| `Paths.LeafAccepts` | crates/schc-coreconf/src/management/duplicate.rs:432-504 | A path is read as an entry and leaf exactly when its SIDs are the constructed ones and its keys agree, up to trailing keys of the scalar leaves. |
| `Paths.NonCanonicalPathAccepted` | crates/schc-coreconf/src/management/duplicate.rs:432-504 | A path with every key before every SID is accepted although it is not the constructed one. |
| `Overrides.ApplyWritesMeaning` | crates/schc-coreconf/src/management/duplicate.rs:386-430 | A list of leaf writes succeeds exactly when each fits the rule it starts from, and leaves in every entry what was last written to each leaf; identity, nature and order stay. |
| `Overrides.PatchedEntry` | crates/schc-coreconf/src/management/duplicate.rs:386-430 | An entry after writes of distinct leaves, without reference to how they are applied: the operator, the action and the target with index zero are the written ones, targets at other indices and every leaf that is not written are unchanged. |
| `Overrides.WritesIgnoreOrder` | crates/schc-coreconf/src/management/duplicate.rs:386-430 | Writes of distinct leaves give the same rule, or fail alike, in any order. |
| `Flow.FlowOverrides` | crates/schc-coreconf/src/management/duplicate.rs:60-108 | The loop returns the overrides that the packet asks for, sorted by entry, or none as soon as one entry cannot be adapted; the unrepresentable-value error never occurs. |
| `Flow.ChangesMeaning` | crates/schc-coreconf/src/management/duplicate.rs:60-108 | When the parent can be adapted, the overrides are exactly those of the entries that disagree. |
| `Flow.ChangedEntryAgrees` | crates/schc-coreconf/src/management/duplicate.rs:60-187 | After the converted number is written, the entry agrees with the packet exactly when the value is recognised: under Equal, at most eight target bytes; under any other operator, the byte width of the field or a narrower form whose compared leading bits are zero. Otherwise it asks for the same change again. |
| `Flow.WiderAgrees` | crates/schc-coreconf/src/management/duplicate.rs:172-187 | The same number in two widths agrees on the compared storage bits exactly when those bits of the narrower form are all zero. |
| `Flow.PlanSoundness` | crates/schc-coreconf/src/management/duplicate.rs:60-187 | Writing a whole plan into its parent gives a rule that can still be adapted, and for which the same packet asks for no override exactly when every overridden entry recognises its value. |
| `Flow.WideMsbTargetNeverSettles` | crates/schc-coreconf/src/management/duplicate.rs:172-187 | An input outside the condition: a two-byte target of the one-byte next-header field under the most-significant-bits operator is written with the right number and asks for it again. |
| `PacketFields.LeadingBitsMeaning` | crates/schc-coreconf/src/management/duplicate.rs:172-187 | Storage bits agree over a length exactly when they read, most significant bit first, as the same number. |
| `PacketFields.SharedFields` | crates/schc-coreconf/src/management/duplicate.rs:60-187 | For each header field that does not depend on the direction, an active entry asks for nothing exactly when its target (or one member of its mapping) reads as the packet number under its operator, and otherwise for an override with that number, or for another parent. |
| `PacketFields.UplinkFields` | crates/schc-coreconf/src/management/duplicate.rs:110-153 | The same for uplink addresses and ports: device fields carry the source of the packet, application fields its destination. |
| `PacketFields.DownlinkFields` | crates/schc-coreconf/src/management/duplicate.rs:110-153 | And for downlink: device fields carry the destination, application fields the source. |
| `PacketFields.OtherFields` | crates/schc-coreconf/src/management/duplicate.rs:60-153 | A field the packet has no value for stands only in an entry without a target. |
| `PacketFields.InactiveEntry` | crates/schc-coreconf/src/management/duplicate.rs:60-108 | An entry that ignores its field, or is for the other direction, asks for nothing. |
| `PacketFields.PlanByEntries` | crates/schc-coreconf/src/management/duplicate.rs:60-108 | A rule can be adapted exactly when each entry can; its overrides are exactly those of its entries, listed by rising index. |
| `Duplicate.DecodeGroup` | crates/schc-coreconf/src/management/duplicate.rs:1072-1128 | One group is accepted exactly when it has one to three instances with distinct paths, and supported, distinct leaves; the entries it touches are collected. |
| `Duplicate.CollectEntries` | crates/schc-coreconf/src/management/duplicate.rs:1072-1128 | The seen-set accepts exactly pairwise distinct leaves. |
| `Duplicate.DecodeInner` | crates/schc-coreconf/src/management/duplicate.rs:1072-1128 | The groups are accepted exactly when each is well formed and no two touch the same entry; the result is all instances in order. |
| `Requests.GroupsMeaning` | crates/schc-coreconf/src/management/duplicate.rs:1072-1128 | The accepted groups, told from the instances: one to three in each, with different paths that name different leaves, and no entry in two groups. |
| `Requests.RequestedIff` | crates/schc-coreconf/src/management/duplicate.rs:301-430 | A request asks for a rule exactly when both RuleIDs are valid, its groups are accepted, the source is an ordinary rule, the destination is neither protected nor the source, and the source has every overridden leaf with a value of its kind. |
| `Duplicate.AcceptedAreDistinct` | crates/schc-coreconf/src/management/duplicate.rs:1072-1128 | Accepted overrides have pairwise distinct (entry, leaf) keys across all groups. |
| `Duplicate.SecondCheckNeverFires` | crates/schc-coreconf/src/management/duplicate.rs:386-396 | For accepted overrides the duplicate check while writing never fires: the loop is exactly the list of writes. |
| `Duplicate.OverridesIgnoreOrder` | crates/schc-coreconf/src/management/duplicate.rs:386-430 | Accepted overrides can be applied in any order. |
| `Duplicate.SetSorted` | crates/schc-coreconf/src/management/duplicate.rs:358-430 | Writing a leaf into the rule already placed in the sorted tree is placing the written rule, so the order of sorting and writing does not matter. |
| `Duplicate.ExpectedDuplicateTree` | crates/schc-coreconf/src/management/duplicate.rs:301-430 | The edited clone is the context with the destination rule in its sorted place; it fails exactly when the source is missing or protected, the destination is protected or equal to it, or an override cannot be written. |
| `Duplicate.DestinationShape` | crates/schc-coreconf/src/management/duplicate.rs:334-430 | The destination rule is the source under the new RuleID with exactly the overridden leaves replaced, and still canonical. |
| `Duplicate.DuplicateAddsOneRule` | crates/schc-coreconf/src/management/duplicate.rs:301-430 | A duplicate to a new RuleID inserts exactly one rule; every other RuleID, the source included, names what it named, and a canonical context stays canonical. |
| `Duplicate.InsertedKeepsProtected` | crates/schc-coreconf/src/management/duplicate.rs:301-430 | Inserting an ordinary rule under a new RuleID leaves the management rules as they were. |
| `Context.CheckNamespace` | crates/schc-coreconf/src/context.rs:548-563 | The namespace loop passes exactly when the namespace is valid and every RuleID that overlaps its prefix is one of its leaves. |
| `Context.Prepare` | crates/schc-coreconf/src/context.rs:396-415 | A candidate is prepared exactly when it is canonical, prefix-free, respects the namespace and is acceptable to the other packages; it then carries the settings it was prepared under and its encoding. |
| `Context.LoadableUnique` | crates/schc-coreconf/src/context.rs:548-563 | A loadable context has unique RuleIDs. |
| `Context.ActiveContext.constructor` | crates/schc-coreconf/src/context.rs:913-921 | A context starts with generation one. |
| `Context.ActiveContext.PublishLocked` | crates/schc-coreconf/src/context.rs:978-988 | Publishing replaces the tree and adds one to the generation. |
| `Context.ActiveContext.ValidateCandidate` | crates/schc-coreconf/src/context.rs:994-1014 | Validation of a prepared candidate succeeds exactly when its settings are those of the context, its bytes are the canonical encoding of its tree, and the management rules are unchanged. |
| `Context.ActiveContext.TryPublish` | crates/schc-coreconf/src/context.rs:1054-1064 | Publishes exactly the admissible candidates and changes nothing otherwise. |
| `Context.ActiveContextBackend.constructor` | crates/schc-coreconf/src/context.rs:971-976 | A backend starts out having observed the current digest. |
| `Context.ActiveContextBackend.ReadTree` | crates/schc-coreconf/src/context.rs:1040-1044 | A read returns the current tree and observes its digest. |
| `Context.ActiveContextBackend.ReplaceTree` | crates/schc-coreconf/src/context.rs:1046-1065 | A replace succeeds exactly when the observed digest is the current one and the candidate is admissible; then tree, generation and observation all move, otherwise none does. |
| `Management.InspectionService.ApplyTargetIpatch` | crates/schc-coreconf/src/management.rs:2050-2198 | The service step: address, content format and single operation, path, tag, checks and candidate decide the response code in this order, and one replacement is published exactly for 2.04. |
| `Patches.BadRequestIff` | crates/schc-coreconf/src/management.rs:2050-2082 | 4.00 is the answer exactly to a request that is not the well-formed iPATCH of one target of a valid RuleID: another address or format, no operation or several, no value, another path. Whatever is not 2.04 changes nothing. |
| `Patches.PatchedAdmissible` | crates/schc-coreconf/src/management.rs:2186-2197 | Replacing a target of an ordinary rule passes the normal form, RuleID, namespace and protection checks: the candidate is admissible exactly when the other packages accept it. |
| `Patches.PatchOfStep` | crates/schc-coreconf/src/management.rs:2050-2082 | A well-formed iPATCH is the replacement it encodes. |
| `Patches.ChecksMeaning` | crates/schc-coreconf/src/management.rs:2095-2185 | The checks refuse a protected rule, and pass on an ordinary one exactly when the target exists in a field of fixed length, the replacement has its width, and both fit the field; every other answer is a conflict. |
| `Patches.PatchFrame` | crates/schc-coreconf/src/management.rs:2186-2197 | A patch changes one target value of one entry of one rule: every other target, field, operator, action, rule and the guard period are as they were. |
| `Patches.PatchApplies` | crates/schc-coreconf/src/management.rs:2050-2198 | A replacement is answered 2.04 exactly when its tag agrees, its checks pass and the other packages accept the context. |
| `Patches.RepeatedUnderIfMatch` | crates/schc-coreconf/src/management.rs:2084-2094 | A late repetition under If-Match, whatever was published in between, is refused exactly when the tag is not that of the context the first one changed. |
| `Patches.PatchedSame` | crates/schc-coreconf/src/management.rs:2186-2197 | A patch leaves a canonical context as it is exactly when the target has the written bytes already. |
| `Patches.RepetitionHarmless` | crates/schc-coreconf/src/management.rs:2050-2198 | A repetition without If-Match leaves the tree alone exactly when it is not answered 2.04 or the target has the bytes it carries. |
| `Patches.RepeatedPatchUndoes` | crates/schc-coreconf/src/management.rs:2050-2198 | After another accepted patch of the same target, such a repetition is answered 2.04 and restores the old tree. |
| `Witnesses.LostPatchExists` | crates/schc-coreconf/src/management.rs:2050-2198 | A concrete context and two different patches of one target at which the second is lost this way. |
| `Management.InspectionService.ApplyDuplicateOperation` | crates/schc-coreconf/src/management.rs:1883-1949 | The service step: applied, idempotent or rejected, with a publication exactly when applied. |
| `Management.InspectionService.Install` | crates/schc-coreconf/src/management.rs:1893-1949 | A new destination must be a leaf of the namespace; an existing one is confirmed only when it is the expected rule and is never published over. |
| `Management.DestinationIdentity` | crates/schc-coreconf/src/management/duplicate.rs:334-350 | A decoded request names distinct leaves and asks for a rule under its own destination RuleID. |
| `Runs.RunInvariant` | crates/schc-coreconf/src/context.rs:978-1066 | Over every interleaving of backends and management requests the context stays loadable, its management rules are the initial ones, and the generation is the initial one plus the number of publications. |
| `Runs.ProtectedForever` | crates/schc-coreconf/src/policy.rs:84-109 | Every reachable snapshot derives the protected rules, and the map from RuleID to protected rule, of the first. |
| `Runs.ObservedIsLastSeen` | crates/schc-coreconf/src/context.rs:1040-1065 | What a backend has recorded is the digest of the tree it last read, opened on or published. |
| `Runs.NoLostUpdate` | crates/schc-coreconf/src/context.rs:1046-1065 | A replace is published exactly when the backend has seen a tree, its digest is the current one and the candidate is admissible; it then overwrites the tree last seen if the two do not collide. A failed replace changes nothing. |
| `Runs.RestoredTreeIsReplaced` | crates/schc-coreconf/src/context.rs:1046-1053 | Because digests and not generations are compared, a replace succeeds after two other publications that restore the tree it read. |
| `Witnesses.RestoredTreeExists` | crates/schc-coreconf/src/context.rs:1046-1053 | A concrete context and candidates at which this happens. |
| `Runs.ServiceRunKeepsIds` | crates/schc-coreconf/src/management.rs:1883-1949 | No run of the management service removes a RuleID. |
| `Runs.AcceptedIsPresent` | crates/schc-coreconf/src/management.rs:1883-1949 | After an accepted duplicate its destination exists. |
| `Runs.ReplayNeverChanges` | crates/schc-coreconf/src/management.rs:1883-1949 | Once a duplicate has been accepted, replaying its datagram in any later state of the service never changes the context. |
| `Deliveries.RepeatedAtEnd` | crates/schc-coreconf/src/management.rs:1883-1949 | After any service run, repeating any duplicate of it that was not rejected when it first came changes nothing. |
| `Deliveries.RepetitionsDoNotMatter` | crates/schc-coreconf/src/management.rs:1883-1949 | For any run of patches and duplicates, accepted or not, and repetitions of accepted duplicates arriving anywhere after their first handling, the state is the one after the fresh requests alone. |
| `Deliveries.ReplicasUnderReplay` | crates/schc-coreconf/src/management.rs:1883-1949 | Replicas that start equal and receive the same fresh requests in the same order are equal, whatever either of them receives again. |
| `Copies.DuplicateOutcome` | crates/schc-coreconf/src/management.rs:1883-1949 | The outcome of any duplicate request in a loadable context, in full: confirmed when the very rule it asks for is there, applied when its destination is a leaf the context has room for and the other packages accept the result, rejected otherwise. |
| `Copies.DuplicateChanges` | crates/schc-coreconf/src/management.rs:1883-1949 | A duplicate datagram, new or repeated, accepted before or rejected, changes the context exactly when the rule it asks for can be built, there is room for it and the other packages accept it. |
| `Copies.WithRulesCommute` | crates/schc-coreconf/src/management/duplicate.rs:356-384 | Two new rules put into the sorted list in either order give the same list. |
| `Copies.OrderIff` | crates/schc-coreconf/src/management.rs:1883-1949 | When two duplicates are applied one after the other, the swapped order applies both and ends in the same context exactly when the second does not copy what the first makes and the other packages accept the second alone; otherwise the second is rejected and only the first has an effect. |
| `Witnesses.ChainExists` | crates/schc-coreconf/src/management.rs:1883-1949 | A concrete context and two requests, 0/2 to 1/2 and 1/2 to 2/2, for which the order matters. |
| `Plans.PlanningFailsOnlyByExhaustion` | crates/schc-coreconf/src/management.rs:1713-1728 | In every reachable state, allocating over the RuleIDs of the context reports neither a collision nor an invalid RuleID, and is exhausted exactly when the namespace is full. |
| `Plans.PlannedCandidate` | crates/schc-coreconf/src/context.rs:548-563 | Installing an ordinary rule under the planned RuleID keeps canonical form, prefix-freeness, the namespace check and the protected rules. |
| `Plans.InstallPlanned` | crates/schc-coreconf/src/management.rs:1893-1949 | Hence it passes the namespace guard and is applied unless another package refuses the context. |
| `Plans.DuplicateToPlanned` | crates/schc-coreconf/src/management.rs:1713-1728 | The same for a whole duplicate request to the planned RuleID. |
| `Plans.AppliedFills` | crates/schc-coreconf/src/management.rs:1883-1949 | An applied duplicate fills at least one more leaf of the namespace. |
| `Plans.ServiceRunIsBounded` | crates/schc-coreconf/src/management.rs:1883-1949 | However duplicates and patches are requested, a run applies at most as many duplicates as there were free leaves. |
| `Sender.GroupReadBack` | crates/schc-coreconf/src/management/duplicate.rs:538-656 | The instances built for one entry are read back with their leaves and values, at distinct paths. |
| `Sender.BuiltIsDecoded` | crates/schc-coreconf/src/management/duplicate.rs:538-656 | What is built from overrides of distinct entries is accepted by the decoder and decodes to the intended writes in order. |
| `Sender.SentIsApplied` | crates/schc-coreconf/src/management/duplicate.rs:538-656 | Writing what the receiver decoded is writing what the sender meant, or failing alike. |
| `Sender.AppliedPlanSettles` | crates/schc-coreconf/src/management.rs:1713-1807 | For any destination: a flow plan built into a request and applied installs a rule for which the same packet asks for no change exactly when every overridden entry recognises its value. |
| `Pipeline.PlanBuilt` | crates/schc-coreconf/src/management/duplicate.rs:538-656 | A plan can be built into a request exactly when every number it writes fits the width and the field of its entry. |
| `Pipeline.PlanRequested` | crates/schc-coreconf/src/management/duplicate.rs:301-430 | The receiver of such a request always finds a rule to install: the parent under the destination RuleID with the plan written. |
| `Pipeline.FlowChangeOutcome` | crates/schc-coreconf/src/management.rs:1713-1807 | The whole way: built for the RuleID the allocator returned, a plan is applied exactly when the other packages accept the context, and the installed rule then asks for no further change exactly when every written value is recognised. |
| `Replicas.GenerationTells` | crates/schc-coreconf/src/bin/schc-coreconf-core.rs:746-761 | The generation counts the published candidates, so an unchanged one means an unchanged snapshot. |
| `Replicas.CoreConsole.NextMessageId` | crates/schc-coreconf/src/bin/schc-coreconf-core.rs:42-49 | Message identifiers follow each other within the 128-value window, from zero when the counter is outside it. |
| `Replicas.CoreConsole.constructor` | crates/schc-coreconf/src/bin/schc-coreconf-core.rs:94-94 | The console starts with identifier one. |
| `Replicas.CoreConsole.SendPatch` | crates/schc-coreconf/src/bin/schc-coreconf-core.rs:718-731 | Three outcomes of the exchange: lost request, lost response, answered. |
| `Replicas.CoreConsole.ExecuteRuleUpdate` | crates/schc-coreconf/src/bin/schc-coreconf-core.rs:668-774 | The driver performs exactly the two-copy step, device first and local only after 2.04, with other writers before and after the local application; it uses up an identifier exactly when the command resolves. |
| `Replicas.CoreConsole.PerformExchange` | crates/schc-coreconf/src/bin/schc-coreconf-core.rs:718-761 | The exchange with the device and what follows it, for one datagram. |
| `Replicas.CoreConsole.ApplyPatch` | crates/schc-coreconf/src/bin/schc-coreconf-core.rs:734-761 | The local application succeeds only when the generation is one above that of the snapshot the command was resolved in. |
| `Replicas.CoreConsole.ExecuteRuleDuplicate` | crates/schc-coreconf/src/bin/schc-coreconf-core.rs:598-666 | The driver performs exactly the two-copy duplicate step, with other writers during the sending and between the two generation readings, and always uses up an identifier. |
| `Replicas.CoreConsole.ApplyCopy` | crates/schc-coreconf/src/bin/schc-coreconf-core.rs:627-645 | The local application between the two generation readings, and the report read off them. |
| `Replicas.UpdateOutcome` | crates/schc-coreconf/src/bin/schc-coreconf-core.rs:668-774 | Every result with the state of both copies: success means that both took the replacement and nobody else published on the core; divergence, that the device took it and the core did not or was published on besides; a rejection carries the answer of the device; after a lost response the device has the replacement exactly when its answer was 2.04. |
| `Commands.RejectedLocallyIff` | crates/schc-coreconf/src/management.rs:1006-1137 | Told from the text of the command: it is refused before anything is sent exactly when the rule is management or missing, the entry is missing or has not exactly one target value, or the text is not a number its width and field can take. |
| `Commands.UpdatedValue` | crates/schc-coreconf/src/bin/schc-coreconf-core.rs:668-774 | After a success both copies hold, in the target the command names and in its old width, the number its text stands for, and have changed in nothing else. |
| `Commands.UpdateSucceedsIff` | crates/schc-coreconf/src/bin/schc-coreconf-core.rs:668-774 | Without other writers an update succeeds exactly when it resolves, the device answers, the tags agree if asked, and each copy passes the checks and is accepted by the other packages. |
| `Replicas.PatchOfDatagram` | crates/schc-coreconf/src/management.rs:2050-2198 | A patch changes a context exactly when it is answered 2.04, then in the resolved target only, and under If-Match only for the same tag. |
| `Replicas.UpdatedCopiesAgree` | crates/schc-coreconf/src/bin/schc-coreconf-core.rs:668-774 | After a successful update with If-Match the copies are equal from any two starting contexts whose tags do not collide; without it, equal copies stay equal. |
| `Replicas.LocalGenerations` | crates/schc-coreconf/src/bin/schc-coreconf-core.rs:627-645 | The generation moves by one for an applied duplicate and by one for each candidate of other writers that is published, counted one by one. |
| `Replicas.ReportIsRight` | crates/schc-coreconf/src/bin/schc-coreconf-core.rs:627-645 | For a local result that is not a rejection, the report says rightly whether the rule was installed exactly when nobody else published between the readings, if it was, and when not exactly one other did, if it was there before. |
| `Replicas.IdempotentReportedInstalled` | crates/schc-coreconf/src/bin/schc-coreconf-core.rs:627-645 | A destination that was already there is reported as installed when one other writer publishes right after. |
| `Witnesses.MisreportExists` | crates/schc-coreconf/src/bin/schc-coreconf-core.rs:627-645 | A concrete context, request and other publication at which this happens. |
| `Replicas.CopyOutcome` | crates/schc-coreconf/src/bin/schc-coreconf-core.rs:598-666 | Nothing is built exactly when no request can be, and then nothing changes; a request that could not be sent or was refused locally leaves the core to the other writers; an installed or confirmed destination is present until another writer publishes; an undelivered request leaves the device alone; equal copies that both handle the request, and on which nobody else publishes, stay equal. |
| `Commands.SentIff` | crates/schc-coreconf/src/management/duplicate.rs:538-656 | A duplicate is sent exactly when the source is an ordinary rule, the destination is not protected, both RuleIDs are uint32, and every override names an entry, has a leaf, an operator without argument, and a number that fits its target. |
| `Commands.InstalledRule` | crates/schc-coreconf/src/management/duplicate.rs:301-430 | The rule a sent duplicate installs, told from the command: the source under the destination RuleID, each entry with the operator, action and number its override gives, each independently of the others, and otherwise as it was. |
| `Replicas.LostCopyIsRecovered` | crates/schc-coreconf/src/bin/schc-coreconf-core.rs:598-666 | Without other writers a lost duplicate separates equal copies exactly when the core installed it, and handling the datagram later, any positive number of times, makes them equal again. |
| `Replicas.HandledAgain` | crates/schc-coreconf/src/management.rs:1883-1949 | Handling a datagram many times is handling it once. |
| `Codec.NormalizeValue` | crates/schc-coreconf/src/codec.rs:70-108 | The in-place recursion computes the recursive normal form and stops at the first refused entry list. |
| `Codec.NumberRead` | crates/schc-coreconf/src/codec.rs:110-142 | The number an order goes by is that of the first member with the key, when it is an integer of 64 bits. |
| `Codec.NormalFormIsSorted` | crates/schc-coreconf/src/codec.rs:80-142 | In a normal form rules rise by length and then value, a missing number counting zero, and entries rise strictly by index. |
| `Codec.ArrangeList` | crates/schc-coreconf/src/codec.rs:80-103 | The seen-set accepts exactly lists in which every entry has a numeric index of its own. |
| `Codec.NumbersKept` | crates/schc-coreconf/src/codec.rs:110-142 | Normalising a value changes none of the numbers the lists are ordered by. |
| `Codec.FailsIff` | crates/schc-coreconf/src/codec.rs:65-108 | Normalisation fails exactly when some entry list, at any depth, has a missing or repeated numeric index. |
| `Codec.OnlyRearranges` | crates/schc-coreconf/src/codec.rs:65-142 | The result differs from the input only by permutations of rule and entry lists. |
| `Codec.Idempotent` | crates/schc-coreconf/src/codec.rs:65-142 | Normalising twice is normalising once. |
| `Codec.NormalFormIsCanonical` | crates/schc-coreconf/src/codec.rs:65-142 | Trees with unique rule keys that differ only in the order of those lists normalise to the same tree, or both fail. |
| `TreeForm.CanonicalIsNormal` | crates/schc-coreconf/src/context.rs:402-407 | The tree of a context equals its normal form exactly when its rules are in RuleID order and every entry list strictly increases. |
| `TreeForm.DuplicateIsNormal` | crates/schc-coreconf/src/management/duplicate.rs:301-430 | The tree a duplicate would publish is a fixed point of normalisation, so it is never refused as non-canonical. |
| `Base64.DigitOfSymbol` | crates/schc-coreconf/src/management/duplicate.rs:810-815 | The inverse table inverts the alphabet, and padding is not in it. |
| `Base64.SymbolIsAlphabet` | crates/schc-coreconf/src/management/duplicate.rs:783-785 | The 64 symbols are those of table 1 of RFC 4648, in order. |
| `Base64.QuadMeaning` | crates/schc-coreconf/src/management/duplicate.rs:783-804 | A quad is its three bytes as one 24-bit number in base 64, missing bytes counting zero and shown as padding. |
| `Base64.EncodedLength` | crates/schc-coreconf/src/management/duplicate.rs:783-804 | The text has four characters for every three bytes begun. |
| `Base64.EncodeChunks` | crates/schc-coreconf/src/management/duplicate.rs:783-804 | The loop over chunks computes the encoding. |
| `Base64.BuildTable` | crates/schc-coreconf/src/management/duplicate.rs:810-815 | The filled table holds each digit at its symbol and 255 elsewhere. |
| `Base64.ReadQuad` | crates/schc-coreconf/src/management/duplicate.rs:818-845 | One turn of the decoder over the table decides a quad: symbols, trailing padding, bytes. |
| `Base64.DecodeText` | crates/schc-coreconf/src/management/duplicate.rs:806-852 | The decoder with table, buffer and final re-encoding computes the decoding. |
| `Base64.DecodeInvertsEncode` | crates/schc-coreconf/src/management/duplicate.rs:783-852 | Decoding a text yields given bytes exactly when the text is their encoding: encode and decode are inverse bijections between byte strings and accepted texts. |
| `Base64.DecodeAccepts` | crates/schc-coreconf/src/management/duplicate.rs:806-852 | The accepted texts are exactly full quads followed by at most one padded quad with zero spare bits (sections 3.5 and 4 of RFC 4648). |
| `Coap.ReadCoapExtended` | crates/schc-coreconf/src/report.rs:728-768 | A delta or length is read with its extension, the offset moves by the extension size, and truncation and the reserved nibble are errors. |
| `Coap.WalkOption` | crates/schc-coreconf/src/report.rs:667-707 | One turn of the loop: the cost of the option read, and where it ends. |
| `Coap.WalkOptions` | crates/schc-coreconf/src/report.rs:655-709 | The walk with its running offset and number yields the costs of all options and where the payload begins, or the first error. |
| `Coap.CompareWalked` | crates/schc-coreconf/src/report.rs:710-726 | A report is made exactly when option count, numbers, lengths and payload length agree with the parsed message. |
| `Coap.InspectCoap` | crates/schc-coreconf/src/report.rs:641-726 | The whole walker, error cases in order. |
| `Coap.ExtensionMeaning` | crates/schc-coreconf/src/report.rs:728-768 | The three forms of a delta or length: itself below 13, one byte above 13, two bytes in network order above 269. |
| `Coap.OptionForm` | crates/schc-coreconf/src/report.rs:667-707 | The parts of an encoded option: delta nibble before length nibble in the first byte, then the extensions in that order, then the value. |
| `Coap.OptionReadBack` | crates/schc-coreconf/src/report.rs:728-760 | Every option encoded as in section 3.1 of RFC 7252 is read as itself, whatever follows it. |
| `Coap.OptionWasEncoded` | crates/schc-coreconf/src/report.rs:728-760 | Whatever is read as an option is that option in its only encoding. |
| `Coap.ParsedIffEncoded` | crates/schc-coreconf/src/report.rs:655-709 | A byte string is read as given options and payload exactly when it is their encoding. |
| `Coap.EncodedIsReported` | crates/schc-coreconf/src/report.rs:641-726 | Every encoding of a message is reported against every parsed message that agrees with it, and each option costs what its encoding has: one header byte, the bytes of the delta extension, those of the length extension, the value, and their sum. |
| `Coap.ReportedWasEncoded` | crates/schc-coreconf/src/report.rs:641-726 | A report is made only for a datagram that is the encoding of a message agreeing with the parsed one. |
| `Datagrams.StopsIff` | crates/schc-coreconf/src/report.rs:667-707 | No option can be read, and with which error, told from nibbles, extension bytes and lengths: the first of a reserved delta, a truncated delta, a reserved length, a truncated length, a number beyond 32 bits, and a value beyond the datagram. |
| `Datagrams.RefusedIff` | crates/schc-coreconf/src/report.rs:641-726 | The one error each datagram is refused with: too short, another token length, the encoding of some options and then something that is neither an option nor a payload, or the encoding of options and a payload the parsed message disagrees with. |
| `Coap.ReportTiles` | crates/schc-coreconf/src/report.rs:641-726 | Four, token, option costs, marker and payload add up to the datagram, and the four parts of each option to that option. |

## Left out

- SCHC compression, packet codecs and the runtime are outside this repository; a plan says nothing about whether the candidate rule compresses the packet.
- CBOR and JSON bytes, SID model lookup and the rustconf datastore: payloads are lists of instances with a path and a value, and trees are values. The check for repeated CBOR map keys belongs to that layer.
- Digest and tag computation (SHA-256): arbitrary functions of the tree.
- Sockets, TUN, threads, timeouts, exchange correlation, report rendering and command parsing.
- Management.InspectionService.ApplyTargetIpatch: requests arrive decoded, so option framing, malformed payloads and the internal error of an unusable SID model are not modelled; 4.00, 4.09 and 4.12 are told apart from there on.
- The ranking of flow candidates by wire size, and the search for a rule that already matches.
- Rule and datastore tree are one value: a target value is absent, one byte string or a list of byte strings in index order, where the source keeps a typed rule and a tree and looks up both.
- Trailing keys of a scalar override leaf are accepted by the reader as modelled; that the datastore may refuse them afterwards is not part of this model.
- Message text of errors: errors are kinds.
- Context.ActiveContext.PublishLocked: the generation is unbounded; the source stops with a panic at the end of the 64-bit range.
- Context.Prepare: what other packages decide about a candidate is the parameter `loads`; the round trip of the tree through the encoder is part of it.
- Replicas.CoreConsole.ExecuteRuleUpdate: other writers are modelled on the core; the device is taken as it is when the datagram arrives.
- TreeForm.CanonicalIsNormal: members other than RuleIDs, indices and the two lists are arbitrary, and assumed to hold no further rule or entry list.
- Coap.InspectCoap: a parsed message is its token, options and payload; offsets do not overflow, as on a machine with 64-bit addresses.
- Base64.DecodeText: text is the bytes of the string; a character outside ASCII is bytes above 127, which the table refuses.
