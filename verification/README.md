# Hyperledger Fabric: configuration, policies, permutations, caches

This project models parts of Hyperledger Fabric 2.5.12 in Dafny and proves what they keep.

* **Channel configuration updates** (`common/configtx`). A configuration is a tree of groups, values
  and policies. An update names what it has read and what it writes; it is checked, overlaid on the
  flattened configuration and rebuilt into a tree. The model has the tree as a datatype, the loops of
  the source as methods, and runs of accepted updates as sequences of states. The main results are
  about runs: an update that changed something cannot be accepted again, every change was approved on
  the way from the root to it, rebuilding never fails, and replicas agree with proposers. Beside them
  stands a characterisation that speaks of trees only, not of maps and keys: which updates are accepted,
  why any other is rejected, and what the proposed tree is.
  (`ConfigTree`, `ConfigMap`, `ConfigUpdate`, `ConfigNames`, `ConfigRuns`, `TreeUpdates`, `ConfigLoops`)
* **Policies** (`common/cauthdsl`, `common/policies`). The evaluator of signature policies is a greedy
  search that marks identities as used. It is proved sound for all policies; monotone for gates over
  leaves and for nested gates that share no signers; and free of missed solutions exactly when the
  signers are aligned. The conversion of implicit meta policies is proved to preserve verdicts and marks
  through principal deduplication and renumbering, and to agree with the policy itself under conditions
  that are exact for meta policies over leaves. The index of a policy manager is proved to agree with its
  tree. (`PolicyManager`, `SignaturePolicy`, `OneLevelGates`, `SeparateGates`, `SignatureSet`,
  `PolicyConvert`, `ImplicitMeta`, `MetaAgreement`)
* **Threshold permutations** (`common/graph`). Trees of vertices on the heap are pruned in place and
  expanded breadth first by cloning and replacing. The result is proved to be exactly, and without
  duplicates, the set given by a recursive definition, and its members are the minimal ways of
  satisfying the thresholds, all of them as long as nothing had to be pruned. (`Choose`, `Permutations`,
  `ThresholdFormula`, `Pruning`, `TreeVertices`, `Permuting`)
* **The authorisation cache of the discovery service** (`discovery/authcache.go`), as a state machine
  over its critical sections: no interleaving yields a verdict older than the call, and none gets stuck.
  (`AuthCache`, `RetentionRatio`)
* **Query sessions** (`core/chaincode`): the batches of a session put together are the first results
  of the iterator, in order; a paginated query is one batch. (`QuerySessions`)
* **Logger levels** (`common/flogging`): the memo and the fast path agree with a longest-prefix lookup.
  (`LoggerLevels`)

`dafny verify dfyconfig.toml` checks the whole project.

Conventions. `None` or an `Err` value stands for an error return; which of several errors a loop over
a Go map reports first depends on the map's order and is not distinguished. Loops over Go maps are
modelled as loops that take the entries in any order. Where a comment in the source says less or more
than its code, the model follows the code: `Tree.Permute` is described as pruning until the number of
combinations is lower than the bound (`common/graph/tree.go:105-108`), while the loop stops as soon as
it no longer exceeds it (`common/graph/perm.go:115`).

Some promises do not hold of all inputs. The model gives an input, and says when they do hold.

* An accepted update can be accepted a second time: one that adds elements below a group whose version
  it leaves alone changes nothing and needs nobody's approval (`ConfigRuns.SomeReplay`,
  `ConfigRuns.UnnoticedIsAccepted`). `ConfigRuns.ReplayableExactlyWhenUntouched` shows that these are
  the only ones.
* A vertex with threshold zero becomes a leaf of its permutations although its formula needs no leaf
  (`ThresholdFormula.ZeroThresholdIsNotCovered`). `ThresholdFormula.DecideExactlyWhenDemanding` shows
  that permutations and formula differ exactly when such a vertex can be part of a permutation.
* Pruned trees do not yield all ways to satisfy the formula; `Pruning.DecideExactlyWithinBound` says when
  they do.
* The greedy evaluator can miss a solution when principals overlap
  (`OneLevelGates.OverlapMissesASolution`), on gates over leaves exactly when two signers are not aligned
  (`OneLevelGates.BestExactlyWhenAligned`, `OneLevelGates.ExactExactlyWhenAligned`).
* More signers can turn the acceptance of a nested gate into rejection
  (`OneLevelGates.NestedGateNotMonotone`); not where the rules of its gates share no signers, nor for gates
  over leaves (`SeparateGates.MoreSignersSeparate`). Sharing signers does not always do harm, so this is one
  direction only.
* A meta policy can accept signers that its conversion rejects (`ImplicitMeta.ConversionIsStricter`).
  `MetaAgreement.ConversionAgrees` gives a condition for all nestings under which the two agree, and
  `MetaAgreement.AgreeExactlyWhenHarmless` the exact one for meta policies over leaves.
* Principals of classifications outside the enumeration can be merged although they differ
  (`PolicyConvert.KeysCollideOutsideTheEnumeration`), and only those (`PolicyConvert.KeyCollision`).
* Signers of different providers can be taken for one (`SignatureSet.KeysCollideAcrossProviders`), exactly
  when the identifiers of provider and identity run together are equal (`SignatureSet.TwoSigners`); within
  one provider that means that they are the same (`SignatureSet.KeyCollision`).
* An element whose mod_policy is empty can be changed by nobody (`TreeUpdates.EmptyModPolicyRejects`,
  `TreeUpdates.EmptyModPolicyFreezes`), until an update of something else fills it in.
* The authorisation cache is bounded exactly when a purge evicts anything (`AuthCache.SizeBounded`,
  `AuthCache.UnboundedWithoutEviction`).

## Model

| member | source | states |
|---|---|---|
| `ConfigTree.KeyInjective` | fabric-2.5.12/common/configtx/configmap.go:44-71 | a map key determines the kind of an element and its whole path, because the prefixes differ and valid names hold no separator |
| `ConfigMap.KeysAreDistinct` | fabric-2.5.12/common/configtx/configmap.go:44-71 | no two elements of one tree are written under the same key |
| `ConfigMap.FlattenExact` | fabric-2.5.12/common/configtx/configmap.go:32-101 | a key is in the flattened map if and only if the tree has an element of that kind at that path, and the entry is that element |
| `ConfigMap.FlattenIsIndex` | fabric-2.5.12/common/configtx/configmap.go:44-101 | there is exactly one such map, and it is the one that holds each element reached by recursion under its own key |
| `ConfigMap.RoundTrip` | fabric-2.5.12/common/configtx/configmap.go:32-190 | flattening a tree with valid names and rebuilding it gives the tree back, with empty mod_policies filled in when orderer capabilities are declared |
| `ConfigMap.RebuildHeldTree` | fabric-2.5.12/common/configtx/configmap.go:112-190 | a tree is rebuilt from any map that holds all its elements, whatever else the map holds |
| `ConfigMap.UpgradeTreeIdempotent` | fabric-2.5.12/common/configtx/configmap.go:159-187 | filling in empty mod_policies a second time changes nothing |
| `ConfigMap.RebuildSucceeds` | fabric-2.5.12/common/configtx/configmap.go:105-157 | rebuilding reports no missing or wrong-kind entry when every member a group lists has an entry; the recursion ends on every finite map |
| `ConfigMap.RebuiltElement` | fabric-2.5.12/common/configtx/configmap.go:112-190 | each element of a rebuilt tree has the version and content of the map's entry for its path, and its mod_policy up to the upgrade |
| `ConfigMap.RebuiltIsValid` | fabric-2.5.12/common/configtx/configmap.go:112-190 | every name in a rebuilt tree is valid, so that it can be flattened again |
| `ConfigNames.ValidateConfigID` | fabric-2.5.12/common/configtx/validator.go:48-68 | accepts exactly the names of 1 to 249 letters, digits, dots and dashes, other than `.` and `..` |
| `ConfigNames.ValidateChannelID` | fabric-2.5.12/common/configtx/validator.go:82-99 | accepts exactly the ids of 1 to 249 lower-case letters, digits, dots and dashes that start with a letter |
| `ConfigNames.ModPolicyExact` | fabric-2.5.12/common/configtx/update.go:48-65 | a mod_policy is valid if and only if it spells one or more valid names, separated by single slashes, after at most one leading slash |
| `ConfigNames.SplitJoined` | fabric-2.5.12/common/configtx/update.go:48-65 | splitting undoes joining: names without separators come back one by one |
| `ConfigNames.KeySpelled` | fabric-2.5.12/common/configtx/configmap.go:44-71 | the very text of the key of an element of each kind |
| `ConfigUpdate.NewValidatorIsWellFormed` | fabric-2.5.12/common/configtx/validator.go:102-128 | a validator that is built holds the exact flattening of its configuration |
| `ConfigUpdate.NewValidatorExact` | fabric-2.5.12/common/configtx/validator.go:102-128 | a validator is built if and only if there is a configuration with a group, a valid channel id and valid names throughout, and holds what it was given |
| `ConfigUpdate.AuthorizedUnfold` | fabric-2.5.12/common/configtx/update.go:115-159 | authorisation succeeds if and only if the read-set and delta-set conditions hold, and then yields the current map overlaid with the delta |
| `ConfigUpdate.Covered` | fabric-2.5.12/common/configtx/update.go:104-111 | once the read set is current, every key of the write set is in the proposed map |
| `ConfigUpdate.FullIsClosed` | fabric-2.5.12/common/configtx/update.go:193-203 | in the proposed map every member that a group lists has an entry |
| `ConfigUpdate.RebuildCannotFail` | fabric-2.5.12/common/configtx/update.go:104-159 | a proposal is never rejected by the coverage check or by the rebuilding |
| `ConfigUpdate.AuthorizedRebuilds` | fabric-2.5.12/common/configtx/validator.go:136-159 | an authorised update rebuilds into a tree whose names are all valid |
| `ConfigUpdate.ProposalLoads` | fabric-2.5.12/common/configtx/validator.go:102-159 | what an accepted update proposes can be loaded as the next configuration |
| `ConfigUpdate.ProposedElement` | fabric-2.5.12/common/configtx/update.go:193-203 | an element of the proposed tree comes from the delta if its key is there and from the current map otherwise |
| `ConfigUpdate.NoSilentChange` | fabric-2.5.12/common/configtx/update.go:32-102 | an element in both trees keeps version and content, and its mod_policy unless that is empty and the proposed configuration declares orderer capabilities; or it moves up by exactly one version with the approval of its old mod_policy |
| `ConfigUpdate.Divergence` | fabric-2.5.12/common/configtx/configmap.go:112-157 | where two trees differ in having an element, some group on the way is in both and lists different members |
| `ConfigUpdate.AdditionsAndRemovalsAreApproved` | fabric-2.5.12/common/configtx/update.go:67-159 | an element appears or disappears only below a current group that was bumped by one version with the approval of its old mod_policy |
| `ConfigUpdate.ValidateAgreesWithPropose` | fabric-2.5.12/common/configtx/validator.go:136-196 | an envelope is valid if and only if proposing its last update in the same state yields that very envelope |
| `ConfigUpdate.RelativeModPolicy` | fabric-2.5.12/common/configtx/update.go:161-190 | a relative mod_policy, of one name or several, names the policy its path leads to from the element's own scope: the group itself for a group, the parent group for anything else |
| `ConfigUpdate.AbsoluteModPolicy` | fabric-2.5.12/common/configtx/update.go:161-190 | an absolute mod_policy names the policy its path leads to from the root, for every element alike |
| `TreeUpdates.AcceptedExactly` | fabric-2.5.12/common/configtx/update.go:18-159 | in terms of the three trees alone: an update is accepted if and only if it is for this channel, names are valid, everything read exists at the version read, something is changed, and every change has a valid mod_policy and either is new at version zero or moves the element up by one with the approval of its old mod_policy |
| `TreeUpdates.RejectedBecause` | fabric-2.5.12/common/configtx/update.go:115-159 | for each way of failing that, which error is reported, in the order of the source; no other error occurs |
| `TreeUpdates.UpgradeExact` | fabric-2.5.12/common/configtx/configmap.go:159-165 | empty mod_policies are filled in if and only if the root is Channel and the value Capabilities is in the group Orderer, of the current tree or among the changes |
| `TreeUpdates.ProposedTreeExact` | fabric-2.5.12/common/configtx/configmap.go:105-190 | each element of the proposed tree is the written one where that was not read at the same version and the current one elsewhere, its empty mod_policy replaced by Admins if they are filled in |
| `TreeUpdates.ProposedMembers` | fabric-2.5.12/common/configtx/configmap.go:112-157 | a group of the proposed tree has exactly the members that the written or current element chosen for it lists |
| `TreeUpdates.ChangeIsTaken` | fabric-2.5.12/common/configtx/update.go:32-102 | in an accepted update, an element written and not read at that version is what the proposed tree has there, if anything; if the current tree has one there, its policy exists and accepts the signatures, and the version goes up by one |
| `TreeUpdates.NoChangeStays` | fabric-2.5.12/common/configtx/update.go:32-46 | what is not written, or was read at the version written, stays as it is in the proposed tree, up to the filling in |
| `TreeUpdates.EmptyModPolicyRejects` | fabric-2.5.12/common/policies/policy.go:330-334 | an empty mod_policy has no policy that could approve a change |
| `TreeUpdates.EmptyModPolicyFreezes` | fabric-2.5.12/common/configtx/update.go:67-102 | no accepted update changes an element whose mod_policy is empty: it stays, up to the filling in, in every proposal that keeps it |
| `TreeUpdates.ProposalIsValid` | fabric-2.5.12/common/configtx/validator.go:136-196 | an update is proposed if and only if it meets those conditions, and the proposal, with the next sequence number, the resulting tree and the update, is valid in the same state |
| `ConfigRuns.RunFacts` | fabric-2.5.12/common/configtx/validator.go:136-159 | along every run the sequence number counts the accepted updates, and channel and namespace stay |
| `ConfigRuns.StepForward` | fabric-2.5.12/common/configtx/update.go:67-102 | an accepted update leaves the versions on the way to any place unchanged or advances them lexicographically, even across removals and re-additions |
| `ConfigRuns.RunForward` | fabric-2.5.12/common/configtx/update.go:67-102 | the same between any two states of a run |
| `ConfigRuns.PinnedVersion` | fabric-2.5.12/common/configtx/update.go:18-102 | an update accepted in two states sees the same version, in both, of each current element its write set names |
| `ConfigRuns.PinnedWay` | fabric-2.5.12/common/configtx/update.go:18-102 | it sees the same versions on the whole way from the root to each current element it changes |
| `ConfigRuns.TouchAdvances` | fabric-2.5.12/common/configtx/update.go:67-102 | the step that applies an update advances the versions on the way to each current element it changes |
| `ConfigRuns.NoReplay` | fabric-2.5.12/common/configtx/update.go:18-102 | an accepted update whose delta touches an existing element is never accepted again later in the run, whatever its signatures |
| `ConfigRuns.BumpDelta` | fabric-2.5.12/common/configtx/update.go:32-46 | an update that reads the whole configuration and writes it back with the root's version moved up has the root alone as its delta |
| `ConfigRuns.RootCanBeChanged` | fabric-2.5.12/common/configtx/update.go:67-159 | whoever the root's mod_policy accepts can have that update accepted, in every well-formed state |
| `ConfigRuns.SomeRun` | fabric-2.5.12/common/configtx/validator.go:102-159 | there is a run, from a configuration that loads, with an update that touches an existing element |
| `ConfigRuns.UntouchedTreeStays` | fabric-2.5.12/common/configtx/configmap.go:105-190 | an accepted update that touches nothing existing leaves the tree as it is, up to the mod_policy upgrade |
| `ConfigRuns.ReplayableExactlyWhenUntouched` | fabric-2.5.12/common/configtx/update.go:18-102 | an accepted update is accepted again straight afterwards if and only if its delta touches no existing element |
| `ConfigRuns.UnnoticedDelta` | fabric-2.5.12/common/configtx/update.go:32-46 | an update that writes a new value into the root without moving the version of the root has that value alone as its delta |
| `ConfigRuns.UnnoticedIsAccepted` | fabric-2.5.12/common/configtx/update.go:67-159 | in every well-formed state such an update is accepted, whoever signs it, and touches nothing that exists |
| `ConfigRuns.SomeReplay` | fabric-2.5.12/common/configtx/update.go:67-159 | there is an update that is accepted, touches nothing that exists, and is accepted again in the next state |
| `ConfigRuns.StepChangesAreApproved` | fabric-2.5.12/common/configtx/update.go:67-159 | after one update an element is unchanged, up to the upgrade where that is on, or the update bumped it or a group above it with the approval of that one's old mod_policy |
| `ConfigRuns.RunChangesAreApproved` | fabric-2.5.12/common/configtx/update.go:67-159 | over any run an element differs, beyond an upgrade that some update of the run switched on, only if some update of the run was approved on the way to it |
| `ConfigRuns.ReplayIsRun` | fabric-2.5.12/common/configtx/validator.go:136-196 | whatever stream of envelopes a replica reads, it ends where a proposer ends by applying the accepted updates itself, and the sequence has grown by their number |
| `ConfigRuns.ReplicasAgree` | fabric-2.5.12/common/configtx/validator.go:136-196 | replicas that start equal and accept the same updates end equal |
| `ConfigLoops.MapBuilder.AddToMap` | fabric-2.5.12/common/configtx/configmap.go:44-71 | an element with a valid name is added under its key, any other is refused and the map left alone |
| `ConfigLoops.MapBuilder.RecurseConfig` | fabric-2.5.12/common/configtx/configmap.go:74-101 | succeeds if and only if all names are valid, and then overlays the map with the flattening of the group |
| `ConfigLoops.MapBuilder.AddValues` | fabric-2.5.12/common/configtx/configmap.go:88-92 | succeeds if and only if all value names are valid, and then every value has been added |
| `ConfigLoops.MapBuilder.AddPolicies` | fabric-2.5.12/common/configtx/configmap.go:94-98 | succeeds if and only if all policy names are valid, and then every policy has been added |
| `ConfigLoops.MapConfigLoop` | fabric-2.5.12/common/configtx/configmap.go:32-41 | computes the flattening that the lemmas speak of, and the empty map for an absent tree |
| `ConfigLoops.RecurseConfigMap` | fabric-2.5.12/common/configtx/configmap.go:112-190 | computes the rebuilt tree that the lemmas speak of, or reports an error exactly where that has none |
| `ConfigLoops.UpgradeLoop` | fabric-2.5.12/common/configtx/configmap.go:159-187 | fills in the empty mod_policies of a group, its values and its policies, and changes nothing else |
| `ConfigLoops.VerifyReadSet` | fabric-2.5.12/common/configtx/update.go:18-30 | accepts if and only if every element read exists at the version read |
| `ConfigLoops.ComputeDeltaSet` | fabric-2.5.12/common/configtx/update.go:32-46 | keeps exactly the written elements that were not read at the same version |
| `ConfigLoops.VerifyDeltaSet` | fabric-2.5.12/common/configtx/update.go:67-102 | accepts if and only if the delta is not empty and each change has a valid mod_policy, the right version and, for an existing element, the approval of its policy |
| `ConfigLoops.ComputeUpdateResult` | fabric-2.5.12/common/configtx/update.go:193-203 | is the current map overlaid with the delta |
| `ConfigLoops.VerifyFullProposedConfig` | fabric-2.5.12/common/configtx/update.go:104-111 | accepts if and only if every written key is in the proposed map |
| `ConfigLoops.ProposeRoot` | fabric-2.5.12/common/configtx/validator.go:136-159 | the loops, run in the order of the source, compute the proposal that the lemmas about runs speak of, error for error |
| `PolicyManager.IndexExact` | fabric-2.5.12/common/policies/policy.go:185-245 | the flattened index of a manager holds under each relative path exactly the policy the tree of groups has there |
| `PolicyManager.ManagerWalk` | fabric-2.5.12/common/policies/policy.go:258-273 | walking to the manager of any group and asking it with a relative id, of one name or several, finds the policy the tree has below that group, if any |
| `PolicyManager.LookupsAgree` | fabric-2.5.12/common/policies/policy.go:330-358 | absolute ids, relative ids and walking the managers all find the same policy, or none |
| `PolicyManager.GetPolicyExact` | fabric-2.5.12/common/policies/policy.go:330-358 | the answer to any id: none to the empty one; to one with a leading slash the policy under what follows the manager's path and one more character, if it starts with that path; to any other the policy under it |
| `PolicyManager.AbsoluteFromSub` | fabric-2.5.12/common/policies/policy.go:185-245 | a manager reached by walking knows the path of the walk, and finds a policy below it under the absolute id that goes on from there, if the tree has one |
| `PolicyManager.CopyNested` | fabric-2.5.12/common/policies/policy.go:235-237 | adds every policy of one sub-manager under its nested id |
| `PolicyManager.CopyAllNested` | fabric-2.5.12/common/policies/policy.go:234-238 | overlays the own policies with those of all sub-managers under their nested ids |
| `PolicyManager.CompilePolicies` | fabric-2.5.12/common/policies/policy.go:201-232 | succeeds if and only if every policy of the group itself compiles, and then holds exactly these |
| `PolicyManager.NewManagerImpl` | fabric-2.5.12/common/policies/policy.go:185-245 | fails if and only if some policy, at any depth, does not compile; otherwise the loops build the manager that the lemmas speak of |
| `SignaturePolicy.FirstFit` | fabric-2.5.12/common/cauthdsl/cauthdsl.go:61-88 | a leaf takes the first identity that is free and satisfies its principal |
| `SignaturePolicy.Evaluate` | fabric-2.5.12/common/cauthdsl/cauthdsl.go:40-88 | the closures, marking an array in place and restoring it from scratch copies, give the verdict and the marks of the recursive evaluator |
| `SignaturePolicy.EvalSound` | fabric-2.5.12/common/cauthdsl/cauthdsl.go:40-88 | when a policy accepts, some sub-tree is met by pairwise different, previously free identities that satisfy its leaves; exactly these are marked, so marks of failed gates never show |
| `SignaturePolicy.EvalAllSound` | fabric-2.5.12/common/cauthdsl/cauthdsl.go:40-60 | the same for the rules of a gate: as many are met as were counted |
| `OneLevelGates.LeafMonotone` | fabric-2.5.12/common/cauthdsl/cauthdsl.go:61-88 | with fewer identities taken a leaf still accepts, and afterwards still fewer are taken |
| `OneLevelGates.OneLevelMonotone` | fabric-2.5.12/common/cauthdsl/cauthdsl.go:40-88 | a gate over leaves that accepts keeps accepting when fewer identities are taken |
| `OneLevelGates.EvalEmbeds` | fabric-2.5.12/common/cauthdsl/cauthdsl.go:40-88 | signers that are already taken might as well not be there, for any policy |
| `OneLevelGates.MoreSignersAccepted` | fabric-2.5.12/common/cauthdsl/cauthdsl.go:40-88 | adding signers anywhere in the list never turns acceptance by a gate over leaves into rejection |
| `OneLevelGates.GreedyIsBest` | fabric-2.5.12/common/cauthdsl/cauthdsl.go:40-88 | when the signers are aligned (a signer who could replace an earlier one for one principal could do so for all), no assignment of signers meets more leaves than the greedy evaluator |
| `OneLevelGates.OneLevelExact` | fabric-2.5.12/common/cauthdsl/cauthdsl.go:40-88 | with aligned signers a gate over leaves accepts if and only if some distinct signers meet it |
| `OneLevelGates.ExclusiveIsAligned` | fabric-2.5.12/common/cauthdsl/cauthdsl.go:61-88 | signers none of whom satisfies two principals are aligned |
| `OneLevelGates.BestExactlyWhenAligned` | fabric-2.5.12/common/cauthdsl/cauthdsl.go:40-88 | the greedy evaluator meets as many leaves as possible, for all lists of leaves and all marks, if and only if the signers are aligned |
| `OneLevelGates.ExactExactlyWhenAligned` | fabric-2.5.12/common/cauthdsl/cauthdsl.go:40-88 | every gate over leaves accepts exactly what distinct signers meet, on every sub-list of the signers, if and only if the signers are aligned |
| `OneLevelGates.MisalignedPair` | fabric-2.5.12/common/cauthdsl/cauthdsl.go:40-88 | any two signers who are not aligned can meet a gate over two leaves that rejects them |
| `OneLevelGates.NestedGateNotMonotone` | fabric-2.5.12/common/cauthdsl/cauthdsl.go:40-60 | two of (two A and a B, A, A) accepts two A signers and rejects them once a B signer joins |
| `OneLevelGates.OverlapMissesASolution` | fabric-2.5.12/common/cauthdsl/cauthdsl.go:61-88 | with overlapping principals the greedy choice can reject signers that could meet the policy |
| `SeparateGates.EvalFrame` | fabric-2.5.12/common/cauthdsl/cauthdsl.go:40-88 | the verdict of any policy depends only on the marks of identities that satisfy one of its leaves, and only such identities get marked |
| `SeparateGates.ApartCount` | fabric-2.5.12/common/cauthdsl/cauthdsl.go:40-60 | rules of a gate that share no signer are met as if each were alone |
| `SeparateGates.SeparateMonotone` | fabric-2.5.12/common/cauthdsl/cauthdsl.go:40-88 | nested gates whose rules share no signers keep accepting when fewer identities are taken |
| `SeparateGates.MoreSignersSeparate` | fabric-2.5.12/common/cauthdsl/cauthdsl.go:40-88 | adding signers never turns acceptance by such nested gates into rejection |
| `SeparateGates.SeparateExact` | fabric-2.5.12/common/cauthdsl/cauthdsl.go:40-88 | with aligned signers such nested gates accept if and only if some distinct signers meet them |
| `SignatureSet.SignatureSetToValidIdentities` | fabric-2.5.12/common/policies/policy.go:363-395 | the loop computes the identities that the lemmas speak of |
| `SignatureSet.ValidIdentitiesExact` | fabric-2.5.12/common/policies/policy.go:363-395 | the identities have pairwise different keys and each a valid signature, and the key of every valid signer is among theirs |
| `SignatureSet.ValidIdentitiesInOrder` | fabric-2.5.12/common/policies/policy.go:363-395 | the identities are, in the order of signing, the first valid signer for each concatenation of provider and identifier |
| `SignatureSet.EveryValidSigner` | fabric-2.5.12/common/policies/policy.go:363-395 | every valid signer is among the identities, or another one with the same concatenation of provider and identifier is |
| `SignatureSet.KeyCollision` | fabric-2.5.12/common/policies/policy.go:374 | identities of one provider have the same key if and only if they are equal |
| `SignatureSet.TwoSigners` | fabric-2.5.12/common/policies/policy.go:374-391 | two valid signers are taken for one if and only if provider and identifier run together are equal |
| `SignatureSet.KeysCollideAcrossProviders` | fabric-2.5.12/common/policies/policy.go:374-378 | two valid signers of different providers, only the first of whom is returned |
| `SignatureSet.SignedDataSound` | fabric-2.5.12/common/cauthdsl/policy.go:86-108 | signed data is accepted only if signers with pairwise different keys and valid signatures meet the policy |
| `PolicyConvert.KeyCollision` | fabric-2.5.12/common/policies/convert.go:65-86 | principals deduplicated together are equal, unless both have a classification outside the enumeration |
| `PolicyConvert.KeysCollideOutsideTheEnumeration` | fabric-2.5.12/common/policies/convert.go:66 | outside the enumeration different principals do get the same key |
| `PolicyConvert.SameKeySameSat` | fabric-2.5.12/msp/mspimpl.go:569-571 | as no identity satisfies a principal outside the enumeration, principals with the same key are satisfied by the same identities |
| `PolicyConvert.MergeExact` | fabric-2.5.12/common/policies/convert.go:61-88 | merging keeps the principals there were in place, adds no key twice, and leads every principal to one with its key |
| `PolicyConvert.IndexPrincipals` | fabric-2.5.12/common/policies/convert.go:63-68 | the index holds, for each key, the last principal that has it |
| `PolicyConvert.Converted.MergeWith` | fabric-2.5.12/common/policies/convert.go:61-94 | merges into the envelope in place, as the function that the lemmas speak of |
| `PolicyConvert.MergeCompiles` | fabric-2.5.12/common/policies/convert.go:61-94 | the merger of envelopes that compile compiles: no leaf is left without a principal |
| `PolicyConvert.Convert` | fabric-2.5.12/common/policies/convert.go:98-129 | every conversion compiles |
| `ImplicitMeta.EvaluateIdentities` | fabric-2.5.12/common/policies/implicitmeta.go:107-144 | the count-down loop with its early return accepts if and only if enough sub-policies accept, each seeing all signers |
| `ImplicitMeta.MetaRuleMeaning` | fabric-2.5.12/common/policies/implicitmeta.go:44-58 | what ANY, ALL and MAJORITY mean for the number of satisfied sub-policies, and that no sub-policies at all are satisfied |
| `ImplicitMeta.RemapEval` | fabric-2.5.12/common/policies/convert.go:21-56 | renumbering leaves to indistinguishable principals changes neither verdict nor marks |
| `ImplicitMeta.ConvertAllMeaning` | fabric-2.5.12/common/policies/convert.go:98-129 | the i-th top rule gives, on every list of identities and all marks, the verdict and marks of the i-th sub-policy; no principal key occurs twice |
| `ImplicitMeta.ConvertMeaning` | fabric-2.5.12/common/policies/convert.go:98-129 | the conversion of any nesting evaluates, mark for mark, as the policy tree with one shared set of marks |
| `ImplicitMeta.ConvertSucceeds` | fabric-2.5.12/common/policies/convert.go:114-126 | conversion succeeds if and only if every policy at the bottom has a conversion |
| `ImplicitMeta.ConvertInPlace` | fabric-2.5.12/common/policies/convert.go:98-129 | the loop that grows one envelope computes that conversion |
| `ImplicitMeta.SharedImpliesSatisfied` | fabric-2.5.12/common/policies/implicitmeta.go:107-144 | over gates of leaves, acceptance with shared marks, from any marks, implies acceptance by the meta policy |
| `ImplicitMeta.ConversionIsAtLeastAsStrict` | fabric-2.5.12/common/policies/convert.go:98-129 | for nested meta policies over gates of leaves, whoever satisfies the conversion satisfies the policy |
| `ImplicitMeta.ConversionIsStricter` | fabric-2.5.12/common/policies/convert.go:98-129 | the converse fails: one signer can satisfy two sub-policies but not both rules of the conversion (`MetaAgreement` says when it holds) |
| `MetaAgreement.SharedIsSatisfied` | fabric-2.5.12/common/policies/implicitmeta.go:107-144 | at any nesting, where no signer concerns two sub-policies of a meta policy that asks for more than one of them, acceptance with shared marks is the same as acceptance by the meta policy |
| `MetaAgreement.ConversionAgrees` | fabric-2.5.12/common/policies/convert.go:98-129 | under the same condition the conversion accepts exactly the signers the policy accepts; nestings of ANY always meet it |
| `MetaAgreement.OneSignerTooFew` | fabric-2.5.12/common/policies/implicitmeta.go:107-144 | where somebody satisfies two sub-policies and enough of them can be satisfied, a list of fewer signers than the threshold satisfies the meta policy |
| `MetaAgreement.AgreeExactlyWhenHarmless` | fabric-2.5.12/common/policies/convert.go:98-129 | for a meta policy over leaves, conversion and policy accept the same signers, on all lists, if and only if the threshold is at most one, fewer sub-policies than the threshold can be satisfied by anybody, or nobody satisfies two of them |
| `Choose.ChooseInto` | fabric-2.5.12/common/graph/choose.go:50-65 | appends to the accumulator exactly the choices that continue the current one |
| `Choose.CombinationsExact` | fabric-2.5.12/common/graph/choose.go:50-65 | the choices enumerated are exactly the increasing completions of the current one |
| `Choose.CombinationsSorted` | fabric-2.5.12/common/graph/choose.go:50-65 | they come in strict lexicographic order |
| `Choose.CombinationsCount` | fabric-2.5.12/common/graph/choose.go:50-65 | there are as many as the binomial coefficient says |
| `Choose.ChooseExact` | fabric-2.5.12/common/graph/choose.go:40-65 | every strictly increasing k-sequence below n exactly once, in lexicographic order, Binomial(n, k) in all |
| `Choose.ExceedExactly` | fabric-2.5.12/common/graph/choose.go:29-38 | there are more combinations than a number if and only if the enumeration is longer |
| `Permutations.SelectionsExact` | fabric-2.5.12/common/graph/perm.go:121-138 | the selections of a vertex are those of all threshold-sized choices of its children, each once |
| `Permutations.ExpandSound` | fabric-2.5.12/common/graph/perm.go:74-89 | replacing a vertex by a choice of its children in a partial permutation gives a partial permutation with that vertex done |
| `Permutations.ExpandComplete` | fabric-2.5.12/common/graph/perm.go:74-89 | every partial permutation with the vertex done arises in this way |
| `Permutations.AbsentVertex` | fabric-2.5.12/common/graph/perm.go:61-70 | permutations in which the vertex does not occur need no expansion |
| `Permutations.RestoreWhole` | fabric-2.5.12/common/graph/tree.go:89-97 | restoring all children undoes a replacement, so different permutations stay different |
| `Permutations.FindReplaced` | fabric-2.5.12/common/graph/tree.go:55-97 | what was put in place of a vertex's children is found there |
| `Permutations.ExpandExact` | fabric-2.5.12/common/graph/perm.go:57-89 | one round of the loop turns the exact list of partial permutations into the exact list with one more vertex done |
| `Permutations.PartialWhenAllDone` | fabric-2.5.12/common/graph/perm.go:43-97 | when every inner vertex is done the partial permutations are the permutations of the recursive definition |
| `ThresholdFormula.CoveredByPermutations` | fabric-2.5.12/common/graph/perm.go:43-97 | for every tree, a set of leaves contains those of some permutation if and only if it satisfies the thresholds, vertices with threshold zero being leaves |
| `ThresholdFormula.SatisfiedByPermutations` | fabric-2.5.12/common/graph/perm.go:43-97 | with positive thresholds, a set of leaves satisfies the tree if and only if it contains the leaves of some permutation |
| `ThresholdFormula.PermutationsAreMinimal` | fabric-2.5.12/common/graph/perm.go:43-97 | the leaves of one permutation never contain those of another |
| `ThresholdFormula.ZeroThresholdIsNotCovered` | fabric-2.5.12/common/graph/perm.go:121-125 | a tree with a zero threshold whose formula holds of no leaves, while every permutation has one |
| `ThresholdFormula.DecideExactlyWhenDemanding` | fabric-2.5.12/common/graph/perm.go:43-97 | for every tree with unique ids, permutations decide the formula if and only if every inner vertex that can be part of a permutation has a positive threshold |
| `ThresholdFormula.PositiveIsDemanding` | fabric-2.5.12/common/graph/perm.go:43-97 | positive thresholds throughout are enough for that |
| `Pruning.ExceedsAboveThreshold` | fabric-2.5.12/common/graph/choose.go:29-38 | with a bound of at least one, there are too many combinations only of more children than the threshold |
| `Pruning.PrunedPerm` | fabric-2.5.12/common/graph/perm.go:114-119 | every permutation of a pruned tree is one of the tree |
| `Pruning.PrunedPermSatisfies` | fabric-2.5.12/common/graph/perm.go:114-119 | with pruning, the leaves of every permutation still satisfy the original tree |
| `Pruning.PrunedUnique` | fabric-2.5.12/common/graph/perm.go:114-119 | pruning keeps ids unique |
| `Pruning.PrunedIsSame` | fabric-2.5.12/common/graph/perm.go:114-119 | pruning leaves a tree as it is if and only if no vertex has more combinations than the bound |
| `Pruning.PrunedCounts` | fabric-2.5.12/common/graph/perm.go:114-119 | every inner vertex of a pruned tree has at most as many enumerated choices of children as the bound, and would have more with one child more if it lost any |
| `Pruning.WithinExactly` | fabric-2.5.12/common/graph/perm.go:114-119 | a tree is within the bound if and only if every inner vertex has at most that many enumerated choices of children |
| `Pruning.LostPermutation` | fabric-2.5.12/common/graph/perm.go:114-119 | with thresholds between one and the number of children, whatever is removed costs some permutation of the tree |
| `Pruning.DecideWithinBound` | fabric-2.5.12/common/graph/perm.go:43-127 | within the bound, the permutations of the pruned tree decide the formula if and only if every inner vertex that matters has a positive threshold |
| `Pruning.DecideExactlyWithinBound` | fabric-2.5.12/common/graph/perm.go:43-127 | with thresholds between one and the number of children, the permutations of the pruned tree decide the original formula if and only if the tree is within the bound |
| `TreeVertices.TreeVertex.Clone` | fabric-2.5.12/common/graph/tree.go:74-85 | a copy of the same tree made of new vertices that share nothing |
| `TreeVertices.TreeVertex.ReplaceAt` | fabric-2.5.12/common/graph/tree.go:89-97 | replaces the descendants of the vertex with the given id in place, and leaves the vertices hung below it as they were |
| `TreeVertices.TreeVertex.FindVertex` | fabric-2.5.12/common/graph/tree.go:55-71 | finds the first vertex with the id, depth first, or none if there is none |
| `TreeVertices.BfsIterator.Next` | fabric-2.5.12/common/graph/tree.go:121-159 | takes the first vertex off the queue and appends its descendants |
| `TreeVertices.QueueStep` | fabric-2.5.12/common/graph/tree.go:134-144 | the queue always holds disjoint sub-trees, below visited vertices, that cover all inner vertices not visited yet |
| `TreeVertices.ChooseAll` | fabric-2.5.12/common/graph/choose.go:40-48 | computes the enumeration that the lemmas speak of |
| `TreeVertices.Partition` | fabric-2.5.12/common/graph/perm.go:57-67 | tells the permutations in which a vertex occurs from the others, in order |
| `TreeVertices.ReplaceEachIn` | fabric-2.5.12/common/graph/perm.go:78-88 | clones a permutation once for each selection and replaces the vertex in the clone |
| `TreeVertices.ExpandPerms` | fabric-2.5.12/common/graph/perm.go:74-89 | does so for every permutation in which the vertex occurs |
| `TreeVertices.ExpandVertex` | fabric-2.5.12/common/graph/perm.go:57-89 | one round of the loop on the heap is one round of the expansion that the lemmas speak of |
| `Permuting.PruneDescendants` | fabric-2.5.12/common/graph/perm.go:114-119 | whichever victims are drawn, the loop ends with a sub-sequence of the descendants with no more enumerated choices than the bound, and with more if one removed descendant came back; it does not fall below the threshold and does not become empty |
| `Permuting.SelectDescendants` | fabric-2.5.12/common/graph/perm.go:130-138 | the descendants with the given indices, in order |
| `Permuting.PrunedTree` | fabric-2.5.12/common/graph/perm.go:101-127 | once every vertex has been visited, what hangs below the root is a pruning of the tree it held, in which a vertex lost children only while it had too many combinations, with all selections recorded |
| `Permuting.OptionsAreSelections` | fabric-2.5.12/common/graph/perm.go:121-125 | the recorded selections of vertices stand for the selections of the sub-trees they hold |
| `Permuting.TreePermutations.Record` | fabric-2.5.12/common/graph/perm.go:121-125 | records all selections of a vertex and touches no other entry |
| `Permuting.TreePermutations.VisitVertex` | fabric-2.5.12/common/graph/perm.go:109-125 | prunes and records one vertex and leaves all others as they were |
| `Permuting.TreePermutations.VisitVertices` | fabric-2.5.12/common/graph/perm.go:101-127 | visits every inner vertex of the original tree, those of removed sub-trees included |
| `Permuting.TreePermutations.ComputeDescendantPermutations` | fabric-2.5.12/common/graph/perm.go:101-127 | prunes the tree in place, and only where it exceeds the bound: afterwards the root holds a pruning of what it held and every vertex of it has its selections recorded |
| `Permuting.TreePermutations.ExpandVertices` | fabric-2.5.12/common/graph/perm.go:46-90 | the loop yields exactly the permutations of the pruned tree, each once, and modifies nothing but the list |
| `Permuting.TreePermutations.Permute` | fabric-2.5.12/common/graph/perm.go:43-97 | the whole of `permute`: exact enumeration of the pruned tree without duplicates, every vertex of which has at most as many choices of children as the bound and lost children only while it had more, the pruned original left as it is, every result satisfies the original formula; within the bound nothing is pruned and the results decide the formula (with positive thresholds, exactly where these matter); beyond it they do not, for thresholds between one and the number of children |
| `AuthCache.InvStep` | fabric-2.5.12/discovery/authcache.go:100-186 | every critical section, and every move of the configuration sequence, keeps the invariant that cached entries and results at hand are fresh enough for their readers |
| `AuthCache.InvRun` | fabric-2.5.12/discovery/authcache.go:100-186 | the invariant holds in every state of every execution |
| `AuthCache.NeverStale` | fabric-2.5.12/discovery/authcache.go:100-137 | under every interleaving a call returns the true verdict for its key under a sequence no older than the one it read on entry |
| `AuthCache.NoDeadlock` | fabric-2.5.12/discovery/authcache.go:100-186 | in every state of every execution each call can take its next step, or waits for the lock of a call that can finish storing; the configuration can move at any time |
| `AuthCache.SizeBounded` | fabric-2.5.12/discovery/authcache.go:139-164 | if the number of entries to evict is not zero, the cache never exceeds its maximum size by as much as the number of concurrent calls |
| `AuthCache.UnboundedWithoutEviction` | fabric-2.5.12/discovery/authcache.go:145-164 | if it is zero, a single caller can make the cache as large as one likes |
| `RetentionRatio.NothingToEvict` | fabric-2.5.12/discovery/authcache.go:153-155 | the number computed from the retention ratio is zero if and only if the entries to retain are the maximum, up to a fraction |
| `RetentionRatio.RetainsTheRatio` | fabric-2.5.12/discovery/authcache.go:153-155 | what is not to be evicted is the ratio of the maximum, rounded towards zero, for any ratio |
| `RetentionRatio.RatioBelowOneEvicts` | fabric-2.5.12/discovery/authcache.go:153-155 | it is positive for any ratio below one and a positive maximum |
| `AuthCache.Evict` | fabric-2.5.12/discovery/authcache.go:153-163 | of n entries the purge loop leaves n minus the number to evict, or none if that number is negative or exceeds n, and keeps those it leaves as they are |
| `AuthCache.AccessCache.IsValid` | fabric-2.5.12/discovery/authcache.go:166-170 | says yes only when every cached entry is at least as fresh as the sequence asked about |
| `AuthCache.AccessCache.ConfigChange` | fabric-2.5.12/discovery/authcache.go:172-178 | leaves an empty cache for the given sequence |
| `AuthCache.AccessCache.LookupKey` | fabric-2.5.12/discovery/authcache.go:180-186 | finds the entry of the key exactly if there is one, and it is no older than the last sequence |
| `AuthCache.AccessCache.IsPurgeNeeded` | fabric-2.5.12/discovery/authcache.go:139-143 | says no only when any one entry may be added without exceeding the maximum |
| `AuthCache.AccessCache.PurgeEntries` | fabric-2.5.12/discovery/authcache.go:150-163 | leaves as many entries as there were less the given number, or none, keeps the others and the last sequence, and no entry becomes stale |
| `AuthCache.AccessCache.PurgeEntriesIfNeeded` | fabric-2.5.12/discovery/authcache.go:145-164 | its two critical sections are steps of the state machine that lead from a miss to the computation; nothing goes while there is room |
| `AuthCache.AccessCache.StoreResult` | fabric-2.5.12/discovery/authcache.go:133-136 | adds the entry, touches nothing else, and keeps all entries as fresh as the last sequence |
| `AuthCache.AccessCache.Seek` | fabric-2.5.12/discovery/authcache.go:106-114 | the critical sections up to a hit or a miss are steps of the state machine; an entry is found if and only if the sequence is that of the cache and the key has one, and a cache of another sequence is emptied |
| `AuthCache.AccessCache.ComputeAndStore` | fabric-2.5.12/discovery/authcache.go:121-136 | computing a verdict and storing it only if the sequence has not moved are steps of the state machine, and the cache stays fresh |
| `AuthCache.AccessCache.EligibleForService` | fabric-2.5.12/discovery/authcache.go:100-137 | a call that is not interleaved with others takes steps of the state machine and returns the result that these lead to, no older than the sequence it read, wherever the sequence moves meanwhile; an entry of the same sequence is served and nothing computed, otherwise the verdict is computed, and kept if and only if the sequence has not moved, beside all others while there is room |
| `QuerySessions.Build` | fabric-2.5.12/core/chaincode/query_response_generator.go:20-82 | a query stays open if and only if its response announces more, and then its iterator has advanced |
| `QuerySessions.Fetch` | fabric-2.5.12/core/chaincode/query_response_generator.go:25-62 | the loop computes the response and state that the lemmas speak of |
| `QuerySessions.BuildExact` | fabric-2.5.12/core/chaincode/query_response_generator.go:20-63 | one call sends what is pending filled up from the iterator, and keeps back the one result it fetched beyond a full batch |
| `QuerySessions.UncutExact` | fabric-2.5.12/core/chaincode/query_response_generator.go:20-82 | a paginated call, or one that already holds more results than a batch, sends what is pending and all results in reach, and is the last |
| `QuerySessions.SessionExact` | fabric-2.5.12/core/chaincode/query_response_generator.go:20-82 | from any call on, the batches put together are exactly the results in reach; all but the last are full |
| `QuerySessions.WholeSession` | fabric-2.5.12/core/chaincode/query_response_generator.go:20-82 | a session sends exactly the first min(limit, total) results in order, in full batches but the last |
| `QuerySessions.PaginatedSession` | fabric-2.5.12/core/chaincode/query_response_generator.go:20-82 | a paginated session is one response with the first min(limit, total) results in order, whatever the batch size |
| `QuerySessions.SessionOfEmptyBatches` | fabric-2.5.12/core/chaincode/query_response_generator.go:42-53 | with a batch size of zero a session sends an empty batch and then all results at once, if there are any |
| `QuerySessions.BatchesIsCeiling` | fabric-2.5.12/core/chaincode/query_response_generator.go:42-53 | the number of responses is the number of results divided by the batch size, rounded up, and at least one |
| `QuerySessions.ErrorInReach` | fabric-2.5.12/core/chaincode/query_response_generator.go:33-36 | an error within the limit fails the call, or is still within the limit for the next one |
| `QuerySessions.NoErrorInReach` | fabric-2.5.12/core/chaincode/query_response_generator.go:31-62 | without an error within the limit no call fails, and there is none within the limit for the next one |
| `QuerySessions.SessionFailsOnError` | fabric-2.5.12/core/chaincode/query_response_generator.go:31-62 | in every mode, a session ends in failure if and only if an error lies within the limit |
| `QuerySessions.TransactionContext.InitializeQueryContext` | fabric-2.5.12/core/chaincode/transaction_context.go:63-79 | opens a query at its start, leaves the others alone, and keeps the three maps on equal keys |
| `QuerySessions.TransactionContext.CleanupQueryContext` | fabric-2.5.12/core/chaincode/transaction_context.go:102-112 | removes the query from all three maps and touches no other |
| `QuerySessions.TransactionContext.BuildQueryResponse` | fabric-2.5.12/core/chaincode/query_response_generator.go:20-82 | responds and moves the query on as the lemmas say, or cleans it up, touches no other query and keeps the three maps on equal keys |
| `LoggerLevels.GovernsCut` | fabric-2.5.12/common/flogging/loggerlevels.go:135-139 | cutting a name at its last dot loses no key that governs it, other than the name itself |
| `LoggerLevels.GovernsName` | fabric-2.5.12/common/flogging/loggerlevels.go:128-141 | the keys that can decide the level of a logger are its name with a trailing dot, its name, and every part of its name before a dot |
| `LoggerLevels.LevelFromExact` | fabric-2.5.12/common/flogging/loggerlevels.go:128-141 | the walk back along a name finds the longest key that is a dotted prefix of it or names it exactly with a trailing dot, or the default |
| `LoggerLevels.LevelAboveMinimum` | fabric-2.5.12/common/flogging/loggerlevels.go:84-91 | no logger has a level below the minimum |
| `LoggerLevels.CalculateLevel` | fabric-2.5.12/common/flogging/loggerlevels.go:128-141 | the loop computes the level that the lemmas speak of |
| `LoggerLevels.MinimumOf` | fabric-2.5.12/common/flogging/loggerlevels.go:84-89 | the lowest of the default and all levels of the specification |
| `LoggerLevels.LoggerLevels.ActivateSpec` | fabric-2.5.12/common/flogging/loggerlevels.go:84-96 | a specification replaces the old one, its minimum and the memo together; a rejected one changes nothing |
| `LoggerLevels.LoggerLevels.Level` | fabric-2.5.12/common/flogging/loggerlevels.go:113-124 | cached or not, the level is the longest-prefix level of the active specification |
| `LoggerLevels.LoggerLevels.Enabled` | fabric-2.5.12/common/flogging/loggerlevels.go:170-175 | the fast check refuses no level that the level of some logger would let pass |

## Left out

- Integer widths: versions, sequences, counts and thresholds do not wrap around; `uint64`, `int32` and `int` are unbounded.
- Protobuf marshalling, hashing, signature algorithms and X.509: what fails to unmarshal is `None`, principals and signatures are checked by functions given as parameters.
- Policies in configuration updates: any predicate on the signature set; the link to the policy modules is the policy manager, not a particular policy.
- Nil entries in protobuf maps, and unknown implicit-meta rule numbers.
- Error texts, and which of several errors a loop over a Go map meets first.
- PolicyManager.NewManagerImpl: names are taken as non-empty and free of separators, as the configuration guarantees; why a policy fails to compile is not modelled, only that it does.
- PolicyManager.LookupsAgree: for ids of the form that the configuration produces; an absolute id that ends with the manager's path is taken as not found, whereas the source slices beyond its end.
- ImplicitMeta.ConvertMeaning: assumes that no identity satisfies a principal of a classification outside the enumeration, as the member services provider ensures.
- SignatureSet.SignedDataSound: identities are told apart by their key, the identifiers of provider and identity run together; two different identities with one key count as one, as in the source (`SignatureSet.KeysCollideAcrossProviders`).
- Permuting.TreePermutations.Permute: for a combination bound of at least one, non-negative thresholds and unique ids; the random choice of victims is any choice, vertex data is a number, and results carry no thresholds, as clones drop them.
- AuthCache.NeverStale: computing a verdict is one step under one configuration sequence, and keys do not collide; the failure to compute a key and the map of caches by channel are not modelled.
- RetentionRatio.NothingToEvict: the retention ratio is a real number, so floating-point rounding is not modelled.
- AuthCache.AccessCache.EligibleForService: for one call at a time; interleavings are the subject of the state machine.
- OneLevelGates.NestedGateNotMonotone: no exact condition is given for nested gates that share signers.
- MetaAgreement.ConversionAgrees: exact for meta policies over leaves only; for deeper sub-policies the condition is sufficient.
- QuerySessions.TransactionContext.CleanupQueryContext: closing the iterator is not modelled.
- QuerySessions.WholeSession: for one limit throughout a session; bookmarks, response metadata, closing of iterators and paged queries on private collections are not modelled.
- QuerySessions.TransactionContext.BuildQueryResponse: pending results and counters are values in maps, not shared pointers, and are written back at the end of a call.
- LoggerLevels.LoggerLevels.ActivateSpec: starts from a parsed specification; the text syntax, the names of levels and the locks are not modelled.
- The text syntax of signature policies, endorsement analysis by principal sets, and access control lists: not modelled, as they would add parsing and lookups rather than harder properties.
- Membership service providers, crypto providers, ledgers, ordering, gossip, chaincode life cycle, servers and commands: outside this model.
