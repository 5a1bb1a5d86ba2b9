/**
 What accepting a configuration update means in terms of the three trees alone: the current
 configuration, what the update has read and what it writes. No maps, keys or delta sets appear in
 these statements; they hold of the map-based code of `common/configtx`.
 */
module TreeUpdates {
  import opened Wrappers
  import opened ConfigTree
  import opened ConfigMap
  import opened ConfigUpdate
  import opened PolicyManager

  // ---------------------------------------------------------------------------------------------
  // Places
  // ---------------------------------------------------------------------------------------------

  /** The element of a tree that may be absent. */
  function At(t: Option<ConfigGroup>, kind: Kind, rel: seq<string>): Option<Item> {
    match t
    case None => None
    case Some(g) => ElementAt(g, kind, rel)
  }

  /** The update writes an element at the place, and did not read it at the version it writes. */
  predicate Changes(u: ConfigUpdate, kind: Kind, rel: seq<string>) {
    var read, written := At(u.readSet, kind, rel), At(u.writeSet, kind, rel);
    written.Some? && (read.None? || read.value.Version() != written.value.Version())
  }

  /** What stands at the place after the update: what is written there if that is a change, else what is there. */
  function Chosen(vi: Validator, u: ConfigUpdate, kind: Kind, rel: seq<string>): Option<Item> {
    if Changes(u, kind, rel) then At(u.writeSet, kind, rel) else At(vi.config.channelGroup, kind, rel)
  }

  predicate ValidTree(t: Option<ConfigGroup>) {
    t.None? || ValidIds(t.value)
  }

  /** Everything read is in the current configuration at the version read. */
  ghost predicate ReadsCurrent(vi: Validator, u: ConfigUpdate) {
    forall kind, rel {:trigger At(u.readSet, kind, rel)} | At(u.readSet, kind, rel).Some? :: ReadAt(vi, u, kind, rel)
  }

  predicate ReadAt(vi: Validator, u: ConfigUpdate, kind: Kind, rel: seq<string>)
    requires At(u.readSet, kind, rel).Some?
  {
    var current := At(vi.config.channelGroup, kind, rel);
    current.Some? && current.value.Version() == At(u.readSet, kind, rel).value.Version()
  }

  /** A change is a new element at version zero, or moves an element up by one version with the approval of its mod_policy. */
  predicate MayChange(vi: Validator, u: ConfigUpdate, signatures: seq<SignedData>, kind: Kind, rel: seq<string>)
    requires Changes(u, kind, rel)
  {
    var written := At(u.writeSet, kind, rel).value;
    && ValidModPolicy(written.ModPolicy())
    && match At(vi.config.channelGroup, kind, rel)
       case None => written.Version() == 0
       case Some(current) =>
         && written.Version() == current.Version() + 1
         && Accepts(PolicyForItem(vi.pm, Named([vi.namespace] + rel, current)), signatures)
  }

  /** There is a policy and it accepts the signatures. */
  predicate Accepts(policy: Option<Evaluator>, signatures: seq<SignedData>) {
    match policy
    case None => false
    case Some(evaluator) => evaluator.accepts(signatures)
  }

  ghost predicate ChangesSomething(u: ConfigUpdate) {
    exists kind, rel {:trigger Changes(u, kind, rel)} :: Changes(u, kind, rel)
  }

  ghost predicate MayChangeAll(vi: Validator, u: ConfigUpdate, signatures: seq<SignedData>) {
    forall kind, rel {:trigger Changes(u, kind, rel)} | Changes(u, kind, rel) :: MayChange(vi, u, signatures, kind, rel)
  }

  // ---------------------------------------------------------------------------------------------
  // Keys and places
  // ---------------------------------------------------------------------------------------------

  lemma MappedTree(t: Option<ConfigGroup>, ns: string)
    requires ValidId(ns)
    ensures MapConfig(t, ns).Some? <==> ValidTree(t)
  {
    hide ValidId; hide ValidIds; hide Flatten;
  }

  /** The map of a tree holds, under the key of a place, what the tree has there. */
  lemma MappedAt(t: Option<ConfigGroup>, ns: string, kind: Kind, rel: seq<string>)
    requires ValidId(ns) && ValidTree(t) && ValidPath(rel) && MapConfig(t, ns).Some?
    ensures var m, key := MapConfig(t, ns).value, Key(kind, [ns] + rel);
            && (key in m <==> At(t, kind, rel).Some?)
            && (key in m ==> m[key] == Named([ns] + rel, At(t, kind, rel).value))
  {
    hide ValidId; hide ValidIds; hide Flatten; hide Key; hide ElementAt; hide Named;
    if t.Some? {
      OneName(ns);
      FlattenExact([ns], t.value, kind, rel);
    }
  }

  lemma MappedPlace(t: Option<ConfigGroup>, ns: string, key: string) returns (kind: Kind, rel: seq<string>)
    requires ValidId(ns) && ValidTree(t) && MapConfig(t, ns).Some? && key in MapConfig(t, ns).value
    ensures ValidPath(rel) && key == Key(kind, [ns] + rel) && At(t, kind, rel).Some?
  {
    hide ValidId; hide ValidIds; hide Flatten; hide Key; hide ElementAt;
    OneName(ns);
    kind, rel := FlattenPlace(ns, t.value, key);
  }

  lemma AtValid(t: Option<ConfigGroup>, kind: Kind, rel: seq<string>)
    requires ValidTree(t) && At(t, kind, rel).Some?
    ensures ValidPath(rel)
  {
    hide ValidIds; hide ElementAt;
    ElementAtValid(t.value, kind, rel);
  }

  lemma CurrentIsMapped(vi: Validator)
    requires WellFormed(vi)
    ensures ValidId(vi.namespace) && ValidTree(vi.config.channelGroup)
    ensures MapConfig(vi.config.channelGroup, vi.namespace) == Some(vi.configMap)
  {
    hide ValidId; hide ValidIds; hide Flatten; hide ValidChannelID;
  }

  /** The delta holds the changes, each under the key of its place. */
  lemma DeltaAt(u: ConfigUpdate, ns: string, kind: Kind, rel: seq<string>)
    requires ValidId(ns) && ValidTree(u.readSet) && ValidTree(u.writeSet) && ValidPath(rel) && Mappable(u, ns)
    ensures var delta, key := DeltaOf(u, ns), Key(kind, [ns] + rel);
            && (key in delta <==> Changes(u, kind, rel))
            && (key in delta ==> delta[key] == Named([ns] + rel, At(u.writeSet, kind, rel).value))
  {
    hide ValidId; hide ValidIds; hide MapConfig; hide Key; hide At;
    MappedAt(u.readSet, ns, kind, rel);
    MappedAt(u.writeSet, ns, kind, rel);
  }

  lemma DeltaPlace(u: ConfigUpdate, ns: string, key: string) returns (kind: Kind, rel: seq<string>)
    requires ValidId(ns) && ValidTree(u.readSet) && ValidTree(u.writeSet) && Mappable(u, ns) && key in DeltaOf(u, ns)
    ensures ValidPath(rel) && key == Key(kind, [ns] + rel) && Changes(u, kind, rel)
  {
    hide ValidId; hide ValidIds; hide MapConfig; hide Key; hide At; hide Changes;
    kind, rel := MappedPlace(u.writeSet, ns, key);
    DeltaAt(u, ns, kind, rel);
  }

  // ---------------------------------------------------------------------------------------------
  // Which updates are accepted
  // ---------------------------------------------------------------------------------------------

  lemma ReadSetExact(vi: Validator, u: ConfigUpdate)
    requires WellFormed(vi) && Mappable(u, vi.namespace) && ValidTree(u.readSet)
    ensures ReadSetCurrent(vi.configMap, ReadSetOf(u, vi.namespace)) <==> ReadsCurrent(vi, u)
  {
    hide WellFormed; hide ValidId; hide ValidIds; hide MapConfig; hide Key; hide At;
    CurrentIsMapped(vi);
    var ns, read := vi.namespace, ReadSetOf(u, vi.namespace);
    if ReadSetCurrent(vi.configMap, read) {
      forall kind, rel | At(u.readSet, kind, rel).Some? ensures ReadAt(vi, u, kind, rel) {
        AtValid(u.readSet, kind, rel);
        MappedAt(u.readSet, ns, kind, rel);
        MappedAt(vi.config.channelGroup, ns, kind, rel);
      }
    }
    if ReadsCurrent(vi, u) {
      forall key | key in read ensures key in vi.configMap && vi.configMap[key].item.Version() == read[key].item.Version() {
        var kind, rel := MappedPlace(u.readSet, ns, key);
        assert ReadAt(vi, u, kind, rel);
        MappedAt(u.readSet, ns, kind, rel);
        MappedAt(vi.config.channelGroup, ns, kind, rel);
      }
    }
  }

  lemma ChangeExact(vi: Validator, u: ConfigUpdate, signatures: seq<SignedData>, kind: Kind, rel: seq<string>)
    requires WellFormed(vi) && Mappable(u, vi.namespace) && ValidTree(u.readSet) && ValidTree(u.writeSet)
    requires ValidPath(rel) && Changes(u, kind, rel)
    ensures var delta, key := DeltaOf(u, vi.namespace), Key(kind, [vi.namespace] + rel);
            key in delta && (ChangeAllowed(vi, key, delta[key], signatures) <==> MayChange(vi, u, signatures, kind, rel))
  {
    hide WellFormed; hide ValidId; hide ValidIds; hide MapConfig; hide Key; hide At; hide ValidModPolicy; hide PolicyForItem; hide DeltaOf;
    CurrentIsMapped(vi);
    DeltaAt(u, vi.namespace, kind, rel);
    MappedAt(vi.config.channelGroup, vi.namespace, kind, rel);
  }

  lemma DeltaExact(vi: Validator, u: ConfigUpdate, signatures: seq<SignedData>)
    requires WellFormed(vi) && Mappable(u, vi.namespace) && ValidTree(u.readSet) && ValidTree(u.writeSet)
    ensures DeltaAllowed(vi, DeltaOf(u, vi.namespace), signatures) <==> ChangesSomething(u) && MayChangeAll(vi, u, signatures)
  {
    hide WellFormed; hide ValidId; hide ValidIds; hide MapConfig; hide Key; hide Changes; hide DeltaOf; hide ChangeAllowed; hide MayChange;
    CurrentIsMapped(vi);
    var ns, delta := vi.namespace, DeltaOf(u, vi.namespace);
    if DeltaAllowed(vi, delta, signatures) {
      var key :| key in delta;
      var _, _ := DeltaPlace(u, ns, key);
      forall kind, rel | Changes(u, kind, rel) ensures MayChange(vi, u, signatures, kind, rel) {
        WrittenIsValid(u, kind, rel);
        ChangeExact(vi, u, signatures, kind, rel);
      }
    }
    if ChangesSomething(u) && MayChangeAll(vi, u, signatures) {
      var kind, rel :| Changes(u, kind, rel);
      WrittenIsValid(u, kind, rel);
      ChangeExact(vi, u, signatures, kind, rel);
      forall key | key in delta ensures ChangeAllowed(vi, key, delta[key], signatures) {
        var kind, rel := DeltaPlace(u, ns, key);
        ChangeExact(vi, u, signatures, kind, rel);
      }
    }
  }

  lemma WrittenIsValid(u: ConfigUpdate, kind: Kind, rel: seq<string>)
    requires ValidTree(u.writeSet) && Changes(u, kind, rel)
    ensures ValidPath(rel)
  {
    hide At;
    AtValid(u.writeSet, kind, rel);
  }

  /** The conditions on the trees under which an update is accepted. */
  ghost predicate Acceptable(vi: Validator, su: SignedUpdate) {
    && su.update.Some? && su.signatures.Some?
    && var u := su.update.value;
       && u.channelID == vi.channelID
       && ValidTree(u.readSet) && ValidTree(u.writeSet)
       && ReadsCurrent(vi, u)
       && ChangesSomething(u) && MayChangeAll(vi, u, su.signatures.value)
  }

  /** An update is accepted exactly when it meets these conditions. */
  lemma AcceptedExactly(vi: Validator, su: SignedUpdate)
    requires WellFormed(vi)
    ensures ProposedRoot(vi, su).Ok? <==> Acceptable(vi, su)
  {
    hide WellFormed; hide ProposedRoot; hide ValidIds; hide MapConfig; hide ReadSetCurrent; hide ReadsCurrent; hide DeltaAllowed; hide DeltaOf;
    hide ChangesSomething; hide MayChangeAll; hide PathString; hide Rebuild; hide ValidTree;
    CurrentIsMapped(vi);
    if su.update.Some? {
      MappedTree(su.update.value.readSet, vi.namespace);
      MappedTree(su.update.value.writeSet, vi.namespace);
    }
    if ProposedRoot(vi, su).Ok? {
      AcceptedIsAuthorized(vi, su);
    }
    if su.update.Some? && su.signatures.Some? && Mappable(su.update.value, vi.namespace) {
      ReadSetExact(vi, su.update.value);
      DeltaExact(vi, su.update.value, su.signatures.value);
      if Acceptable(vi, su) {
        AuthorizedRebuilds(vi, su);
      }
    }
  }

  /** Which condition each error reports, the earlier ones having been met. */
  lemma RejectedBecause(vi: Validator, su: SignedUpdate)
    requires WellFormed(vi) && ProposedRoot(vi, su).Err?
    ensures var e := ProposedRoot(vi, su).error;
            if su.update.None? then e == BadEnvelope
            else if su.update.value.channelID != vi.channelID then e == WrongChannel
            else if !ValidTree(su.update.value.readSet) then e == BadReadSet
            else if !ReadsCurrent(vi, su.update.value) then e == StaleReadSet
            else if !ValidTree(su.update.value.writeSet) then e == BadWriteSet
            else if su.signatures.None? then e == BadSignatures
            else e == DeltaRejected && !(ChangesSomething(su.update.value) && MayChangeAll(vi, su.update.value, su.signatures.value))
  {
    hide WellFormed; hide ValidIds; hide MapConfig; hide ReadSetCurrent; hide ReadsCurrent; hide DeltaAllowed;
    hide ChangesSomething; hide MayChangeAll; hide ConfigMapToConfig; hide ValidTree; hide WriteSetCovered; hide DeltaSet;
    CurrentIsMapped(vi);
    RebuildCannotFail(vi, Some(su));
    if su.update.Some? {
      var u := su.update.value;
      MappedTree(u.readSet, vi.namespace);
      MappedTree(u.writeSet, vi.namespace);
      if ValidTree(u.readSet) && ValidTree(u.writeSet) {
        ReadSetExact(vi, u);
        if su.signatures.Some? {
          DeltaExact(vi, u, su.signatures.value);
        }
      } else if ValidTree(u.readSet) {
        ReadSetOnly(vi, u);
      }
    }
  }

  lemma ReadSetOnly(vi: Validator, u: ConfigUpdate)
    requires WellFormed(vi) && ValidTree(u.readSet) && MapConfig(u.readSet, vi.namespace).Some?
    ensures ReadSetCurrent(vi.configMap, MapConfig(u.readSet, vi.namespace).value) <==> ReadsCurrent(vi, u)
  {
    hide WellFormed; hide ValidIds; hide MapConfig; hide ReadSetCurrent;
    var reading := u.(writeSet := None);
    assert MapConfig(None, vi.namespace).Some? by { NoTree(vi.namespace); }
    ReadSetExact(vi, reading);
    assert ReadsCurrent(vi, u) <==> ReadsCurrent(vi, reading) by {
      assert forall kind, rel {:trigger At(u.readSet, kind, rel)} | At(u.readSet, kind, rel).Some? ::
          ReadAt(vi, u, kind, rel) == ReadAt(vi, reading, kind, rel);
    }
  }

  lemma NoTree(ns: string)
    ensures MapConfig(None, ns) == Some(map[])
  {
  }

  // ---------------------------------------------------------------------------------------------
  // What an accepted update leads to
  // ---------------------------------------------------------------------------------------------

  const CAPABILITIES: seq<string> := ["Orderer", "Capabilities"]

  lemma CapabilitiesKey()
    ensures ValidPath(CAPABILITIES)
    ensures Key(ValueKind, ["Channel"] + CAPABILITIES) == "[Value]  /Channel/Orderer/Capabilities"
  {
    hide ValidId; hide Child; hide Tagged; hide PathString;
    CapabilitiesNames();
    assert PathString([]) == "" by { NoPath(); }
    PathStringSnoc([], "Channel");
    assert [] + ["Channel"] == ["Channel"];
    PathStringSnoc(["Channel"], "Orderer");
    PathStringSnoc(["Channel"] + ["Orderer"], "Capabilities");
    assert ["Channel"] + CAPABILITIES == ["Channel"] + ["Orderer"] + ["Capabilities"];
    ChannelPath();
    OrdererPath();
    CapabilitiesPath();
    CapabilitiesTag();
  }

  lemma NoPath()
    ensures PathString([]) == ""
  {
  }

  lemma ChannelPath()
    ensures Child("", "Channel") == "/Channel"
  {
  }

  lemma OrdererPath()
    ensures Child("/Channel", "Orderer") == "/Channel/Orderer"
  {
  }

  lemma CapabilitiesPath()
    ensures Child("/Channel/Orderer", "Capabilities") == "/Channel/Orderer/Capabilities"
  {
  }

  lemma CapabilitiesTag()
    ensures Tagged(ValueKind, "/Channel/Orderer/Capabilities") == "[Value]  /Channel/Orderer/Capabilities"
  {
  }

  lemma CapabilitiesNames()
    ensures ValidId("Orderer") && ValidId("Capabilities") && ValidId("Channel")
  {
  }

  /** The value that declares orderer capabilities is there after the update, or was there before and is not changed. */
  predicate DeclaresCapabilities(vi: Validator, u: ConfigUpdate) {
    vi.namespace == "Channel" && Chosen(vi, u, ValueKind, CAPABILITIES).Some?
  }

  /** A key of the overlaid map stands for a place where the update or the current configuration has an element. */
  lemma FullAt(vi: Validator, u: ConfigUpdate, kind: Kind, rel: seq<string>)
    requires WellFormed(vi) && Mappable(u, vi.namespace) && ValidTree(u.readSet) && ValidTree(u.writeSet) && ValidPath(rel)
    ensures var full, key := FullOf(vi, u), Key(kind, [vi.namespace] + rel);
            && (key in full <==> Chosen(vi, u, kind, rel).Some?)
            && (key in full ==> full[key].item == Chosen(vi, u, kind, rel).value)
  {
    hide WellFormed; hide ValidId; hide ValidIds; hide MapConfig; hide Key; hide At; hide DeltaOf;
    CurrentIsMapped(vi);
    DeltaAt(u, vi.namespace, kind, rel);
    MappedAt(vi.config.channelGroup, vi.namespace, kind, rel);
  }

  lemma FullPlace(vi: Validator, u: ConfigUpdate, key: string) returns (kind: Kind, rel: seq<string>)
    requires WellFormed(vi) && Mappable(u, vi.namespace) && ValidTree(u.readSet) && ValidTree(u.writeSet) && key in FullOf(vi, u)
    ensures ValidPath(rel) && key == Key(kind, [vi.namespace] + rel)
  {
    hide WellFormed; hide ValidId; hide ValidIds; hide MapConfig; hide Key; hide At; hide DeltaOf;
    CurrentIsMapped(vi);
    if key in DeltaOf(u, vi.namespace) {
      kind, rel := DeltaPlace(u, vi.namespace, key);
    } else {
      kind, rel := MappedPlace(vi.config.channelGroup, vi.namespace, key);
    }
  }

  lemma UpgradeExact(vi: Validator, u: ConfigUpdate)
    requires WellFormed(vi) && Mappable(u, vi.namespace) && ValidTree(u.readSet) && ValidTree(u.writeSet)
    ensures UpgradeOn(FullOf(vi, u)) <==> DeclaresCapabilities(vi, u)
  {
    hide WellFormed; hide ValidId; hide ValidIds; hide MapConfig; hide Key; hide Chosen; hide FullOf;
    CapabilitiesKey();
    var key := Key(ValueKind, ["Channel"] + CAPABILITIES);
    if key in FullOf(vi, u) {
      var kind, rel := FullPlace(vi, u, key);
      assert vi.namespace == "Channel" by {
        CurrentIsMapped(vi);
        OneName(vi.namespace);
        CapabilitiesNames();
        assert ValidPath(["Channel"] + CAPABILITIES) && ValidPath([vi.namespace] + rel);
        KeyInjective(ValueKind, ["Channel"] + CAPABILITIES, kind, [vi.namespace] + rel);
        assert (["Channel"] + CAPABILITIES)[0] == ([vi.namespace] + rel)[0];
      }
    }
    if vi.namespace == "Channel" {
      FullAt(vi, u, ValueKind, CAPABILITIES);
    }
  }

  /** An empty mod_policy is filled in where orderer capabilities are declared. */
  function Filled(modPolicy: string, declared: bool): string {
    if declared && modPolicy == "" then "Admins" else modPolicy
  }

  /** `x` is `y` with its mod_policy filled in; of a group, what its members hold is left open. */
  predicate IsFilled(x: Item, y: Item, declared: bool) {
    match y
    case Value(v) => x == Value(v.(modPolicy := Filled(v.modPolicy, declared)))
    case Policy(p) => x == Policy(p.(modPolicy := Filled(p.modPolicy, declared)))
    case Group(g) =>
      && x.Group? && x.group.version == g.version && x.group.modPolicy == Filled(g.modPolicy, declared)
      && x.group.groups.Keys == g.groups.Keys && x.group.values.Keys == g.values.Keys && x.group.policies.Keys == g.policies.Keys
  }

  lemma UpgradedIsFilled(x: Item, y: Item, on: bool)
    requires Upgraded(x, y, on)
    ensures IsFilled(x, y, on)
  {
  }

  lemma AcceptedTrees(vi: Validator, su: SignedUpdate)
    requires WellFormed(vi) && ProposedRoot(vi, su).Ok?
    ensures su.update.Some? && ValidTree(su.update.value.readSet) && ValidTree(su.update.value.writeSet)
    ensures Mappable(su.update.value, vi.namespace) && Authorized(vi, su)
  {
    hide ProposedRoot; hide ValidTree; hide MapConfig; hide Authorized; hide WellFormed;
    AcceptedIsAuthorized(vi, su);
    AcceptedExactly(vi, su);
    AuthorizedUpdate(vi, su);
  }

  lemma AuthorizedUpdate(vi: Validator, su: SignedUpdate)
    requires Authorized(vi, su)
    ensures su.update.Some? && Mappable(su.update.value, vi.namespace)
  {
    hide MapConfig;
  }

  /**
   The tree an accepted update leads to: each element is what is written at its place if that is a
   change, else what is there now, with an empty mod_policy filled in where capabilities are declared.
   As a group lists the members of its element, this determines the tree from the root down.
   */
  lemma ProposedTreeExact(vi: Validator, su: SignedUpdate, kind: Kind, rel: seq<string>)
    requires WellFormed(vi) && ProposedRoot(vi, su).Ok? && ElementAt(ProposedRoot(vi, su).value, kind, rel).Some?
    ensures su.update.Some? && Chosen(vi, su.update.value, kind, rel).Some?
    ensures IsFilled(ElementAt(ProposedRoot(vi, su).value, kind, rel).value, Chosen(vi, su.update.value, kind, rel).value,
                     DeclaresCapabilities(vi, su.update.value))
  {
    hide WellFormed; hide ValidIds; hide MapConfig; hide Key; hide Chosen; hide ElementAt; hide FullOf; hide Upgraded; hide UpgradeOn; hide IsFilled;
    hide ProposedRoot; hide DeclaresCapabilities; hide Authorized;
    AcceptedTrees(vi, su);
    ProposedElement(vi, su, kind, rel);
    FullAt(vi, su.update.value, kind, rel);
    UpgradeExact(vi, su.update.value);
    UpgradedIsFilled(ElementAt(ProposedRoot(vi, su).value, kind, rel).value, Chosen(vi, su.update.value, kind, rel).value,
                     UpgradeOn(FullOf(vi, su.update.value)));
  }

  /** Every member that the element of a group lists is in the proposed tree, and no other. */
  lemma ProposedMembers(vi: Validator, su: SignedUpdate, rel: seq<string>, kind: Kind, k: string)
    requires WellFormed(vi) && ProposedRoot(vi, su).Ok? && GroupAt(ProposedRoot(vi, su).value, rel).Some?
    ensures su.update.Some? && Chosen(vi, su.update.value, GroupKind, rel).Some? && Chosen(vi, su.update.value, GroupKind, rel).value.Group?
    ensures ElementAt(ProposedRoot(vi, su).value, kind, rel + [k]).Some?
            <==> Member(Chosen(vi, su.update.value, GroupKind, rel).value.group, kind, k).Some?
  {
    hide WellFormed; hide ProposedRoot; hide Chosen; hide DeclaresCapabilities; hide GroupAt;
    GroupElement(ProposedRoot(vi, su).value, rel);
    ProposedTreeExact(vi, su, GroupKind, rel);
    assert (rel + [k])[..|rel|] == rel;
  }

  /** A change that an accepted update writes was approved if it replaces something, and is what the proposed tree has there. */
  lemma ChangeIsTaken(vi: Validator, su: SignedUpdate, kind: Kind, rel: seq<string>)
    requires WellFormed(vi) && ProposedRoot(vi, su).Ok? && su.update.Some? && Changes(su.update.value, kind, rel)
    ensures var u := su.update.value;
            var proposed, current, written := ElementAt(ProposedRoot(vi, su).value, kind, rel), At(vi.config.channelGroup, kind, rel), At(u.writeSet, kind, rel).value;
            && (proposed.Some? ==> IsFilled(proposed.value, written, DeclaresCapabilities(vi, u)))
            && (current.Some? ==>
                  && su.signatures.Some? && Accepts(PolicyForItem(vi.pm, Named([vi.namespace] + rel, current.value)), su.signatures.value)
                  && written.Version() == current.value.Version() + 1)
            && (current.None? ==> written.Version() == 0)
  {
    hide WellFormed; hide ProposedRoot; hide At; hide ElementAt; hide IsFilled; hide DeclaresCapabilities; hide Accepts; hide ReadsCurrent;
    AcceptedExactly(vi, su);
    assert MayChange(vi, su.update.value, su.signatures.value, kind, rel);
    if ElementAt(ProposedRoot(vi, su).value, kind, rel).Some? {
      ProposedTreeExact(vi, su, kind, rel);
    }
  }

  /** What is not a change stays. */
  lemma NoChangeStays(vi: Validator, su: SignedUpdate, kind: Kind, rel: seq<string>)
    requires WellFormed(vi) && ProposedRoot(vi, su).Ok? && su.update.Some? && !Changes(su.update.value, kind, rel)
    requires ElementAt(ProposedRoot(vi, su).value, kind, rel).Some?
    ensures var current := At(vi.config.channelGroup, kind, rel);
            current.Some? && IsFilled(ElementAt(ProposedRoot(vi, su).value, kind, rel).value, current.value, DeclaresCapabilities(vi, su.update.value))
  {
    hide WellFormed; hide ProposedRoot; hide At; hide ElementAt; hide IsFilled; hide DeclaresCapabilities; hide Changes;
    ProposedTreeExact(vi, su, kind, rel);
  }

  // ---------------------------------------------------------------------------------------------
  // Elements without a mod_policy
  // ---------------------------------------------------------------------------------------------

  /** Nobody approves changes to an element whose mod_policy is empty. */
  lemma EmptyModPolicyRejects(pm: Manager<Evaluator>, e: Comparable)
    requires e.item.ModPolicy() == ""
    ensures PolicyForItem(pm, e) == None
  {
  }

  /** No accepted update changes an element whose mod_policy is empty; where the proposal keeps it, only the mod_policy is filled in. */
  lemma EmptyModPolicyFreezes(vi: Validator, su: SignedUpdate, kind: Kind, rel: seq<string>)
    requires WellFormed(vi) && ProposedRoot(vi, su).Ok?
    requires ElementAt(Root(vi), kind, rel).Some? && ElementAt(Root(vi), kind, rel).value.ModPolicy() == ""
    ensures su.update.Some? && !Changes(su.update.value, kind, rel)
    ensures ElementAt(ProposedRoot(vi, su).value, kind, rel).Some? ==>
              IsFilled(ElementAt(ProposedRoot(vi, su).value, kind, rel).value, ElementAt(Root(vi), kind, rel).value,
                       DeclaresCapabilities(vi, su.update.value))
  {
    hide ValidIds; hide ValidId; hide Flatten; hide ValidChannelID; hide ProposedRoot; hide ElementAt; hide IsFilled; hide DeclaresCapabilities;
    hide PolicyForItem; hide Changes; hide Authorized; hide Mappable;
    AcceptedTrees(vi, su);
    var current := ElementAt(Root(vi), kind, rel).value;
    EmptyModPolicyRejects(vi.pm, Named([vi.namespace] + rel, current));
    if Changes(su.update.value, kind, rel) {
      ChangeIsTaken(vi, su, kind, rel);
    } else if ElementAt(ProposedRoot(vi, su).value, kind, rel).Some? {
      NoChangeStays(vi, su, kind, rel);
    }
  }

  // ---------------------------------------------------------------------------------------------
  // Proposing and validating
  // ---------------------------------------------------------------------------------------------

  /** A proposal carries the next sequence number, the tree the update leads to and the update, and a validator in the same state accepts it. */
  lemma ProposalIsValid(vi: Validator, su: SignedUpdate)
    requires WellFormed(vi)
    ensures Propose(vi, Some(su)).Ok? <==> Acceptable(vi, su)
    ensures Propose(vi, Some(su)).Ok? ==>
              var env := Propose(vi, Some(su)).value;
              && ProposedRoot(vi, su).Ok? && env.config == Some(Config(vi.sequence + 1, Some(ProposedRoot(vi, su).value)))
              && env.lastUpdate == Some(su) && Validate(vi, Some(env))
  {
    hide WellFormed; hide ProposedRoot; hide Acceptable;
    AcceptedExactly(vi, su);
  }
}
