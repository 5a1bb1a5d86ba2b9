/**
 `common/configtx/update.go` and `validator.go`: checking a configuration update against the current
 configuration, and the configuration it leads to.
 */
module ConfigUpdate {
  import opened Wrappers
  import opened ConfigTree
  import opened ConfigMap
  import opened PolicyManager

  /** A policy, as far as configuration updates can see: whether it accepts a set of signatures. */
  datatype Evaluator = Evaluator(accepts: seq<SignedData> -> bool)

  datatype Config = Config(sequence: nat, channelGroup: Option<ConfigGroup>)

  datatype ConfigUpdate = ConfigUpdate(channelID: string, readSet: Option<ConfigGroup>, writeSet: Option<ConfigGroup>)

  /** A signed update; `None` stands for bytes that do not unmarshal. */
  datatype SignedUpdate = SignedUpdate(update: Option<ConfigUpdate>, signatures: Option<seq<SignedData>>)

  /** A configuration together with the update that is said to lead to it; an absent update does not unmarshal. */
  datatype ConfigEnvelope = ConfigEnvelope(config: Option<Config>, lastUpdate: Option<SignedUpdate>)

  datatype Validator = Validator(
    channelID: string,
    sequence: nat,
    configMap: ElementMap,
    config: Config,
    namespace: string,
    pm: Manager<Evaluator>)

  datatype Error =
    | BadEnvelope
    | WrongChannel
    | BadReadSet
    | StaleReadSet
    | BadWriteSet
    | BadSignatures
    | DeltaRejected
    | WriteSetNotCovered
    | RebuildFailed

  // ---------------------------------------------------------------------------------------------
  // The validator
  // ---------------------------------------------------------------------------------------------

  predicate ValidChannelID(id: string) {
    && 0 < |id| <= MAX_LENGTH
    && 'a' <= id[0] <= 'z'
    && forall i | 0 <= i < |id| :: 'a' <= id[i] <= 'z' || '0' <= id[i] <= '9' || id[i] == '.' || id[i] == '-'
  }

  /** `NewValidatorImpl` */
  ghost function NewValidator(channelID: string, config: Option<Config>, namespace: string, pm: Manager<Evaluator>): Option<Validator> {
    if config.None? || config.value.channelGroup.None? || !ValidChannelID(channelID) then None
    else
      match MapConfig(config.value.channelGroup, namespace)
      case None => None
      case Some(m) => Some(Validator(channelID, config.value.sequence, m, config.value, namespace, pm))
  }

  /** What `NewValidator` establishes. */
  ghost predicate WellFormed(vi: Validator) {
    && ValidChannelID(vi.channelID)
    && vi.config.channelGroup.Some?
    && ValidId(vi.namespace)
    && ValidIds(vi.config.channelGroup.value)
    && vi.configMap == Flatten([vi.namespace], vi.config.channelGroup.value)
    && vi.config.sequence == vi.sequence
  }

  lemma NewValidatorIsWellFormed(channelID: string, config: Option<Config>, namespace: string, pm: Manager<Evaluator>)
    requires NewValidator(channelID, config, namespace, pm).Some?
    ensures WellFormed(NewValidator(channelID, config, namespace, pm).value)
  {
    hide Flatten; hide ValidIds; hide ValidId; hide ValidChannelID;
  }

  /** A validator is built exactly for a configuration with a group, a valid channel id and valid names, and holds what it was given. */
  lemma NewValidatorExact(channelID: string, config: Option<Config>, namespace: string, pm: Manager<Evaluator>)
    ensures var vi := NewValidator(channelID, config, namespace, pm);
            && (vi.Some? <==> config.Some? && config.value.channelGroup.Some? && ValidChannelID(channelID)
                              && ValidId(namespace) && ValidIds(config.value.channelGroup.value))
            && (vi.Some? ==>
                  && vi.value.channelID == channelID && vi.value.namespace == namespace && vi.value.pm == pm
                  && vi.value.config == config.value && vi.value.sequence == config.value.sequence
                  && vi.value.configMap == Flatten([namespace], config.value.channelGroup.value))
  {
    hide Flatten; hide ValidIds; hide ValidId; hide ValidChannelID;
    if ValidId(namespace) {
      OneName(namespace);
    }
  }

  /** The root group of the configuration. */
  function Root(vi: Validator): ConfigGroup
    requires vi.config.channelGroup.Some?
  {
    vi.config.channelGroup.value
  }

  // ---------------------------------------------------------------------------------------------
  // The checks
  // ---------------------------------------------------------------------------------------------

  /** `verifyReadSet` */
  predicate ReadSetCurrent(configMap: ElementMap, readSet: ElementMap) {
    forall key | key in readSet ::
      key in configMap && configMap[key].item.Version() == readSet[key].item.Version()
  }

  /** `computeDeltaSet` */
  function DeltaSet(readSet: ElementMap, writeSet: ElementMap): ElementMap {
    map key | key in writeSet && !(key in readSet && readSet[key].item.Version() == writeSet[key].item.Version()) :: writeSet[key]
  }

  /** `strings.Split` on the path separator. */
  function SplitPath(s: string): seq<string> {
    if s == [] then [""]
    else
      var rest := SplitPath(s[1..]);
      if s[0] == '/' then [""] + rest else [[s[0]] + rest[0]] + rest[1..]
  }

  /** `validateModPolicy` */
  predicate ValidModPolicy(modPolicy: string) {
    && modPolicy != ""
    && ValidPath(SplitPath(if modPolicy[0] == '/' then modPolicy[1..] else modPolicy))
  }

  /** `policyForItem` */
  function PolicyForItem(pm: Manager<Evaluator>, e: Comparable): Option<Evaluator> {
    var modPolicy := e.item.ModPolicy();
    if modPolicy != "" && modPolicy[0] != '/' && e.path != [] then
      var groupPath := e.path[1..] + (if e.item.Group? then [e.key] else []);
      match ManagerAt(pm, groupPath)
      case None => None
      case Some(manager) => GetPolicy(manager, modPolicy)
    else
      GetPolicy(pm, modPolicy)
  }

  /** The mod_policy of `e` exists and accepts the signatures. */
  predicate Approved(vi: Validator, e: Comparable, signatures: seq<SignedData>) {
    var policy := PolicyForItem(vi.pm, e);
    policy.Some? && policy.value.accepts(signatures)
  }

  /** What `verifyDeltaSet` asks of one element of the delta. */
  predicate ChangeAllowed(vi: Validator, key: string, value: Comparable, signatures: seq<SignedData>) {
    && ValidModPolicy(value.item.ModPolicy())
    && if key in vi.configMap then
         value.item.Version() == vi.configMap[key].item.Version() + 1 && Approved(vi, vi.configMap[key], signatures)
       else
         value.item.Version() == 0
  }

  /** `verifyDeltaSet` */
  predicate DeltaAllowed(vi: Validator, delta: ElementMap, signatures: seq<SignedData>) {
    delta != map[] && forall key | key in delta :: ChangeAllowed(vi, key, delta[key], signatures)
  }

  /** `verifyFullProposedConfig` */
  predicate WriteSetCovered(writeSet: ElementMap, full: ElementMap) {
    forall key | key in writeSet :: key in full
  }

  /** `authorizeUpdate`: the overlaid configuration map, or the first check that fails. */
  ghost function AuthorizeUpdate(vi: Validator, su: SignedUpdate): Result<ElementMap, Error> {
    if su.update.None? then Err(BadEnvelope)
    else
      var u := su.update.value;
      if u.channelID != vi.channelID then Err(WrongChannel)
      else
        var readSet := MapConfig(u.readSet, vi.namespace);
        if readSet.None? then Err(BadReadSet)
        else if !ReadSetCurrent(vi.configMap, readSet.value) then Err(StaleReadSet)
        else
          var writeSet := MapConfig(u.writeSet, vi.namespace);
          if writeSet.None? then Err(BadWriteSet)
          else if su.signatures.None? then Err(BadSignatures)
          else
            var delta := DeltaSet(readSet.value, writeSet.value);
            if !DeltaAllowed(vi, delta, su.signatures.value) then Err(DeltaRejected)
            else
              var full := vi.configMap + delta;
              if !WriteSetCovered(writeSet.value, full) then Err(WriteSetNotCovered)
              else Ok(full)
  }

  /** `authorizeUpdate` followed by `configMapToConfig`: the root group that an update leads to. */
  ghost function ProposedRoot(vi: Validator, su: SignedUpdate): Result<ConfigGroup, Error> {
    match AuthorizeUpdate(vi, su)
    case Err(e) => Err(e)
    case Ok(full) =>
      match ConfigMapToConfig(full, vi.namespace)
      case None => Err(RebuildFailed)
      case Some(root) => Ok(root)
  }

  /** `ProposeConfigUpdate` */
  ghost function Propose(vi: Validator, configtx: Option<SignedUpdate>): Result<ConfigEnvelope, Error> {
    if configtx.None? then Err(BadEnvelope)
    else
      match ProposedRoot(vi, configtx.value)
      case Err(e) => Err(e)
      case Ok(root) => Ok(ConfigEnvelope(Some(Config(vi.sequence + 1, Some(root))), configtx))
  }

  /** `Validate` */
  ghost predicate Validate(vi: Validator, env: Option<ConfigEnvelope>) {
    && env.Some?
    && env.value.config.Some?
    && env.value.config.value.sequence == vi.sequence + 1
    && env.value.lastUpdate.Some?
    && var root := ProposedRoot(vi, env.value.lastUpdate.value);
       root.Ok? && env.value.config.value.channelGroup == Some(root.value)
  }

  // ---------------------------------------------------------------------------------------------
  // What the checks establish
  // ---------------------------------------------------------------------------------------------

  /** The delta of an update depends on the update alone, given the namespace. */
  ghost function ReadSetOf(u: ConfigUpdate, namespace: string): ElementMap
    requires MapConfig(u.readSet, namespace).Some?
  {
    MapConfig(u.readSet, namespace).value
  }

  ghost function WriteSetOf(u: ConfigUpdate, namespace: string): ElementMap
    requires MapConfig(u.writeSet, namespace).Some?
  {
    MapConfig(u.writeSet, namespace).value
  }

  ghost predicate Mappable(u: ConfigUpdate, namespace: string) {
    MapConfig(u.readSet, namespace).Some? && MapConfig(u.writeSet, namespace).Some?
  }

  ghost function DeltaOf(u: ConfigUpdate, namespace: string): ElementMap
    requires Mappable(u, namespace)
  {
    DeltaSet(ReadSetOf(u, namespace), WriteSetOf(u, namespace))
  }

  /** The conditions under which an update is authorised, all together. */
  ghost predicate Authorized(vi: Validator, su: SignedUpdate) {
    && su.update.Some? && su.signatures.Some?
    && var u := su.update.value;
       && u.channelID == vi.channelID
       && Mappable(u, vi.namespace)
       && ReadSetCurrent(vi.configMap, ReadSetOf(u, vi.namespace))
       && DeltaAllowed(vi, DeltaOf(u, vi.namespace), su.signatures.value)
  }

  /** The configuration map an authorised update leads to. */
  ghost function FullOf(vi: Validator, u: ConfigUpdate): ElementMap
    requires Mappable(u, vi.namespace)
  {
    vi.configMap + DeltaOf(u, vi.namespace)
  }

  lemma AuthorizedUnfold(vi: Validator, su: SignedUpdate)
    ensures AuthorizeUpdate(vi, su).Ok? ==> Authorized(vi, su) && AuthorizeUpdate(vi, su).value == FullOf(vi, su.update.value)
    ensures Authorized(vi, su) ==> AuthorizeUpdate(vi, su) == Ok(FullOf(vi, su.update.value))
    ensures AuthorizeUpdate(vi, su) != Err(WriteSetNotCovered) && AuthorizeUpdate(vi, su) != Err(RebuildFailed)
  {
    hide MapConfig; hide ReadSetCurrent; hide DeltaAllowed;
    if Authorized(vi, su) {
      Covered(vi, su.update.value);
    }
  }

  /** A key of the write set that is not in the delta was read at its current version, so it exists. */
  lemma Covered(vi: Validator, u: ConfigUpdate)
    requires Mappable(u, vi.namespace) && ReadSetCurrent(vi.configMap, ReadSetOf(u, vi.namespace))
    ensures WriteSetCovered(WriteSetOf(u, vi.namespace), FullOf(vi, u))
  {
    hide MapConfig;
  }

  lemma MappedIsClosed(g: Option<ConfigGroup>, namespace: string)
    requires MapConfig(g, namespace).Some?
    ensures Closed(MapConfig(g, namespace).value)
  {
    hide ClosedAt; hide Flatten; hide ValidIds; hide ValidId;
    if g.Some? {
      FlattenClosed([namespace], g.value);
    }
  }

  lemma ClosedOverlay(c: ElementMap, d: ElementMap, w: ElementMap)
    requires Closed(c) && Closed(w)
    requires forall key | key in d :: key in w && d[key] == w[key]
    requires forall key | key in w :: key in c + d
    ensures Closed(c + d)
  {
    hide KeyOf; hide Key; hide FullPath; hide ValidPath; hide Member;
    var m := c + d;
    forall key | key in m ensures ClosedAt(m, key) {
      if key in d {
        assert ClosedAt(w, key);
      } else {
        assert ClosedAt(c, key);
      }
    }
  }

  lemma FullIsClosed(vi: Validator, u: ConfigUpdate)
    requires WellFormed(vi) && Mappable(u, vi.namespace)
    requires ReadSetCurrent(vi.configMap, ReadSetOf(u, vi.namespace))
    ensures Closed(FullOf(vi, u))
  {
    hide MapConfig; hide Closed; hide Flatten; hide ValidIds; hide ValidId; hide ReadSetCurrent; hide ValidChannelID;
    FlattenClosed([vi.namespace], Root(vi));
    MappedIsClosed(u.writeSet, vi.namespace);
    Covered(vi, u);
    ClosedOverlay(vi.configMap, DeltaOf(u, vi.namespace), WriteSetOf(u, vi.namespace));
  }

  lemma RootKey(vi: Validator)
    requires WellFormed(vi)
    ensures Key(GroupKind, [vi.namespace]) in vi.configMap
  {
    hide Key; hide ValidIds; hide ValidId; hide Flatten; hide ValidChannelID;
    FlattenExact([vi.namespace], Root(vi), GroupKind, []);
    assert [vi.namespace] + [] == [vi.namespace];
  }

  /** An authorised update always rebuilds, into a tree whose names are all valid. */
  lemma AuthorizedRebuilds(vi: Validator, su: SignedUpdate)
    requires WellFormed(vi) && Authorized(vi, su)
    ensures Rebuild(PathString([vi.namespace]), FullOf(vi, su.update.value)).Some?
    ensures ProposedRoot(vi, su) == Ok(Rebuild(PathString([vi.namespace]), FullOf(vi, su.update.value)).value)
    ensures ValidIds(ProposedRoot(vi, su).value)
  {
    hide Key; hide ValidIds; hide ValidId; hide Flatten; hide ValidChannelID; hide Rebuild; hide PathString;
    hide MapConfig; hide Closed; hide DeltaAllowed; hide ReadSetCurrent; hide AuthorizeUpdate; hide DeltaSet;
    var full := FullOf(vi, su.update.value);
    AuthorizedUnfold(vi, su);
    FullIsClosed(vi, su.update.value);
    RootKey(vi);
    RebuildSucceeds(full, [vi.namespace]);
    RebuiltIsValid(full, [vi.namespace]);
    RootPath(vi.namespace);
  }

  lemma AcceptedIsAuthorized(vi: Validator, su: SignedUpdate)
    requires WellFormed(vi) && ProposedRoot(vi, su).Ok?
    ensures Authorized(vi, su)
  {
    hide MapConfig; hide AuthorizeUpdate; hide ConfigMapToConfig; hide WellFormed;
    AuthorizedUnfold(vi, su);
  }

  /** Once the read-set and delta-set checks pass, neither the coverage check nor the rebuilding can fail. */
  lemma RebuildCannotFail(vi: Validator, configtx: Option<SignedUpdate>)
    requires WellFormed(vi)
    ensures Propose(vi, configtx) != Err(WriteSetNotCovered)
    ensures Propose(vi, configtx) != Err(RebuildFailed)
  {
    hide AuthorizeUpdate; hide Authorized; hide WellFormed; hide ConfigMapToConfig; hide Rebuild; hide PathString;
    if configtx.Some? {
      AuthorizedUnfold(vi, configtx.value);
      if Authorized(vi, configtx.value) {
        AuthorizedRebuilds(vi, configtx.value);
      }
    }
  }

  /** What an accepted update proposes can be loaded as the next configuration, under any policy manager. */
  lemma ProposalLoads(vi: Validator, su: SignedUpdate, pm: Manager<Evaluator>)
    requires WellFormed(vi) && ProposedRoot(vi, su).Ok?
    ensures var config := Config(vi.sequence + 1, Some(ProposedRoot(vi, su).value));
            NewValidator(vi.channelID, Some(config), vi.namespace, pm).Some?
  {
    hide Flatten; hide ValidIds; hide ValidId; hide ValidChannelID; hide ProposedRoot; hide Rebuild; hide PathString; hide Authorized;
    AcceptedIsAuthorized(vi, su);
    AuthorizedRebuilds(vi, su);
  }

  // ---------------------------------------------------------------------------------------------
  // One accepted update
  // ---------------------------------------------------------------------------------------------

  lemma CurrentElement(vi: Validator, kind: Kind, rel: seq<string>)
    requires WellFormed(vi) && ValidPath(rel)
    ensures Key(kind, [vi.namespace] + rel) in vi.configMap <==> ElementAt(Root(vi), kind, rel).Some?
    ensures ElementAt(Root(vi), kind, rel).Some? ==>
              vi.configMap[Key(kind, [vi.namespace] + rel)] == Named([vi.namespace] + rel, ElementAt(Root(vi), kind, rel).value)
  {
    hide Key; hide ValidIds; hide ValidId; hide Flatten; hide ValidChannelID; hide ElementAt;
    FlattenExact([vi.namespace], Root(vi), kind, rel);
  }

  /** An element of the proposed tree comes from the delta if its key is there, else from the current map. */
  lemma ProposedElement(vi: Validator, su: SignedUpdate, kind: Kind, rel: seq<string>)
    requires WellFormed(vi) && ProposedRoot(vi, su).Ok?
    requires ElementAt(ProposedRoot(vi, su).value, kind, rel).Some?
    ensures Authorized(vi, su) && ValidPath(rel)
    ensures Key(kind, [vi.namespace] + rel) in FullOf(vi, su.update.value)
    ensures Upgraded(ElementAt(ProposedRoot(vi, su).value, kind, rel).value,
                     FullOf(vi, su.update.value)[Key(kind, [vi.namespace] + rel)].item,
                     UpgradeOn(FullOf(vi, su.update.value)))
  {
    hide Key; hide ElementAt; hide Rebuild; hide PathString; hide WellFormed; hide ProposedRoot; hide MapConfig;
    hide FullOf; hide Upgraded; hide UpgradeOn; hide DeltaAllowed; hide ReadSetCurrent;
    AcceptedIsAuthorized(vi, su);
    AuthorizedRebuilds(vi, su);
    ElementAtValid(ProposedRoot(vi, su).value, kind, rel);
    RebuiltElement(FullOf(vi, su.update.value), [vi.namespace], kind, rel);
  }

  /** Empty mod_policies are filled in by the update: the configuration it leads to declares orderer capabilities. */
  ghost predicate Upgrades(vi: Validator, su: SignedUpdate) {
    su.update.Some? && Mappable(su.update.value, vi.namespace) && UpgradeOn(FullOf(vi, su.update.value))
  }

  /** The element at the given place moved up by one version, and its old mod_policy accepted the signatures. */
  predicate Bumped(vi: Validator, su: SignedUpdate, rel: seq<string>, before: Item, after: Item) {
    && after.Version() == before.Version() + 1
    && su.signatures.Some?
    && Approved(vi, Named([vi.namespace] + rel, before), su.signatures.value)
  }

  /** An element that stays is either as it was, up to the upgrade, or bumped with the approval of its own mod_policy. */
  lemma NoSilentChange(vi: Validator, su: SignedUpdate, kind: Kind, rel: seq<string>)
    requires WellFormed(vi) && ProposedRoot(vi, su).Ok?
    requires ElementAt(Root(vi), kind, rel).Some? && ElementAt(ProposedRoot(vi, su).value, kind, rel).Some?
    ensures var before, after := ElementAt(Root(vi), kind, rel).value, ElementAt(ProposedRoot(vi, su).value, kind, rel).value;
            Upgraded(after, before, Upgrades(vi, su)) || Bumped(vi, su, rel, before, after)
    ensures Authorized(vi, su) && ValidPath(rel)
    ensures Key(kind, [vi.namespace] + rel) in DeltaOf(su.update.value, vi.namespace) ==>
              ElementAt(ProposedRoot(vi, su).value, kind, rel).value.Version() == ElementAt(Root(vi), kind, rel).value.Version() + 1
  {
    hide Key; hide ElementAt; hide WellFormed; hide ProposedRoot; hide UpgradeOn; hide ContentOf; hide Approved; hide MapConfig;
    hide DeltaOf; hide ReadSetCurrent;
    ProposedElement(vi, su, kind, rel);
    CurrentElement(vi, kind, rel);
    var key := Key(kind, [vi.namespace] + rel);
    var delta := DeltaOf(su.update.value, vi.namespace);
    if key in delta {
      assert ChangeAllowed(vi, key, delta[key], su.signatures.value);
    }
  }

  /** Where two trees differ in having an element, some group on the way is in both and lists different members. */
  lemma {:induction false} Divergence(g: ConfigGroup, h: ConfigGroup, kind: Kind, rel: seq<string>) returns (i: nat)
    requires ElementAt(g, kind, rel).Some? != ElementAt(h, kind, rel).Some?
    ensures i < |rel|
    ensures GroupAt(g, rel[..i]).Some? && GroupAt(h, rel[..i]).Some?
    ensures ContentOf(Group(GroupAt(g, rel[..i]).value)) != ContentOf(Group(GroupAt(h, rel[..i]).value))
    decreases |rel|
  {
    var front := rel[..|rel| - 1];
    if GroupAt(g, front).Some? && GroupAt(h, front).Some? {
      i := |rel| - 1;
    } else {
      GroupElement(g, front);
      GroupElement(h, front);
      i := Divergence(g, h, GroupKind, front);
      assert front[..i] == rel[..i];
    }
  }

  /** The group at the given place is in both configurations and was bumped. */
  ghost predicate GroupBumped(vi: Validator, su: SignedUpdate, rel: seq<string>)
    requires vi.config.channelGroup.Some? && ProposedRoot(vi, su).Ok?
  {
    var before, after := GroupAt(Root(vi), rel), GroupAt(ProposedRoot(vi, su).value, rel);
    before.Some? && after.Some? && Bumped(vi, su, rel, Group(before.value), Group(after.value))
  }

  /** An element appears or disappears only below a current group that was bumped with approval. */
  lemma AdditionsAndRemovalsAreApproved(vi: Validator, su: SignedUpdate, kind: Kind, rel: seq<string>)
    requires WellFormed(vi) && ProposedRoot(vi, su).Ok?
    requires ElementAt(Root(vi), kind, rel).Some? != ElementAt(ProposedRoot(vi, su).value, kind, rel).Some?
    ensures exists i | 0 <= i < |rel| :: GroupBumped(vi, su, rel[..i])
  {
    hide ValidIds; hide ValidId; hide Flatten; hide ValidChannelID; hide ProposedRoot; hide Bumped; hide ContentOf; hide GroupAt; hide ElementAt;
    var i := Divergence(Root(vi), ProposedRoot(vi, su).value, kind, rel);
    GroupElement(Root(vi), rel[..i]);
    GroupElement(ProposedRoot(vi, su).value, rel[..i]);
    NoSilentChange(vi, su, GroupKind, rel[..i]);
    assert GroupBumped(vi, su, rel[..i]);
  }

  // ---------------------------------------------------------------------------------------------
  // Proposing and validating
  // ---------------------------------------------------------------------------------------------

  /** A validator accepts exactly the envelopes a proposer in the same state would produce from their updates. */
  lemma ValidateAgreesWithPropose(vi: Validator, env: ConfigEnvelope)
    ensures Validate(vi, Some(env)) <==> Propose(vi, env.lastUpdate) == Ok(env)
  {
    hide ProposedRoot;
  }

  // ---------------------------------------------------------------------------------------------
  // Which policy guards an element
  // ---------------------------------------------------------------------------------------------

  /** The group in whose scope a relative mod_policy is read: a group's own, any other element's parent. */
  function Scope(e: Comparable): seq<string>
    requires e.path != [] || e.item.Group?
  {
    if e.item.Group? then FullPath(e)[1..] else e.path[1..]
  }

  /** A relative mod_policy, of one name or several, names the policy its path leads to from the element's scope. */
  lemma RelativeModPolicy(root: string, t: PolicyTree<Evaluator>, e: Comparable, groupPath: seq<string>, name: string)
    requires PlainNames(t) && (e.path != [] || e.item.Group?) && AllSlashFree(FullPath(e))
    requires AllSlashFree(groupPath) && SlashFree(name) && e.item.ModPolicy() == RelativePath(groupPath, name)
    ensures PolicyForItem(NewManager(root, t), e) == FindPolicy(t, Scope(e) + groupPath, name)
  {
    hide FindPolicy; hide NewManager; hide PlainNames; hide GetPolicy; hide RelativePath;
    assert AllSlashFree(Scope(e)) by {
      forall i | 0 <= i < |Scope(e)| ensures SlashFree(Scope(e)[i]) {
        assert Scope(e)[i] == FullPath(e)[i + 1];
      }
    }
    StartsPlain(groupPath, name);
    ManagerWalk(root, t, Scope(e), groupPath, name);
    if e.path != [] {
      assert Scope(e) == e.path[1..] + if e.item.Group? then [e.key] else [];
    }
  }

  /** An absolute mod_policy names the same policy for every element: the one that its path leads to from the root. */
  lemma AbsoluteModPolicy(root: string, t: PolicyTree<Evaluator>, e: Comparable, groupPath: seq<string>, name: string)
    requires PlainNames(t) && AllSlashFree(groupPath) && SlashFree(name)
    requires e.item.ModPolicy() == "/" + root + "/" + RelativePath(groupPath, name)
    ensures PolicyForItem(NewManager(root, t), e) == FindPolicy(t, groupPath, name)
  {
    hide FindPolicy; hide NewManager; hide PlainNames; hide ManagerAt; hide GetPolicy; hide RelativePath;
    LookupsAgree(root, t, groupPath, name);
    assert e.item.ModPolicy()[0] == '/';
  }
}
