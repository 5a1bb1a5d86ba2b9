/**
 Whole runs of configuration updates: what every accepted update of a run keeps, why an update
 cannot be replayed, who approved each change, and why replicas agree.
 */
module ConfigRuns {
  import opened Wrappers
  import opened ConfigTree
  import opened ConfigMap
  import opened ConfigUpdate
  import opened ConfigNames
  import opened PolicyManager

  /** `w` is `v` after the update `su`, under whatever policy manager the new configuration has. */
  ghost predicate Step(v: Validator, su: SignedUpdate, w: Validator) {
    && WellFormed(v)
    && ProposedRoot(v, su).Ok?
    && NewValidator(v.channelID, Some(Config(v.sequence + 1, Some(ProposedRoot(v, su).value))), v.namespace, w.pm) == Some(w)
  }

  /** The states of a run and the updates accepted between them. */
  ghost predicate Run(vs: seq<Validator>, us: seq<SignedUpdate>) {
    && |vs| == |us| + 1
    && WellFormed(vs[0])
    && forall i | 0 <= i < |us| :: Step(vs[i], us[i], vs[i + 1])
  }

  lemma StepFacts(v: Validator, su: SignedUpdate, w: Validator)
    requires Step(v, su, w)
    ensures WellFormed(w)
    ensures w.channelID == v.channelID && w.namespace == v.namespace && w.sequence == v.sequence + 1
    ensures Root(w) == ProposedRoot(v, su).value
  {
    hide WellFormed; hide ProposedRoot; hide MapConfig; hide ValidChannelID;
    NewValidatorIsWellFormed(v.channelID, Some(Config(v.sequence + 1, Some(ProposedRoot(v, su).value))), v.namespace, w.pm);
  }

  /** Along a run the sequence number counts the accepted updates; channel and namespace stay. */
  lemma {:induction false} RunFacts(vs: seq<Validator>, us: seq<SignedUpdate>, i: nat)
    requires Run(vs, us) && i < |vs|
    ensures WellFormed(vs[i])
    ensures vs[i].channelID == vs[0].channelID && vs[i].namespace == vs[0].namespace
    ensures vs[i].sequence == vs[0].sequence + i
    decreases i
  {
    hide WellFormed; hide Step;
    if i > 0 {
      RunFacts(vs, us, i - 1);
      StepFacts(vs[i - 1], us[i - 1], vs[i]);
    }
  }

  // ---------------------------------------------------------------------------------------------
  // The versions on the way to an element
  // ---------------------------------------------------------------------------------------------

  /** The kind of the element found after following `i` names of `rel` to an element of the given kind. */
  function WayKind(kind: Kind, rel: seq<string>, i: nat): Kind {
    if i < |rel| then GroupKind else kind
  }

  function Waypoint(g: ConfigGroup, kind: Kind, rel: seq<string>, i: nat): Option<Item>
    requires i <= |rel|
  {
    ElementAt(g, WayKind(kind, rel, i), rel[..i])
  }

  function VersionAt(g: ConfigGroup, kind: Kind, rel: seq<string>, i: nat): Option<nat>
    requires i <= |rel|
  {
    var item := Waypoint(g, kind, rel, i);
    if item.Some? then Some(item.value.Version()) else None
  }

  ghost predicate SameBefore(g: ConfigGroup, h: ConfigGroup, kind: Kind, rel: seq<string>, n: nat)
    requires n <= |rel| + 1
  {
    forall i | 0 <= i < n :: VersionAt(g, kind, rel, i) == VersionAt(h, kind, rel, i)
  }

  /** No version on the way has changed. */
  ghost predicate Unmoved(g: ConfigGroup, h: ConfigGroup, kind: Kind, rel: seq<string>) {
    SameBefore(g, h, kind, rel, |rel| + 1)
  }

  /** The first version on the way to differ, seen from the root, is at `i`, and it has grown. */
  ghost predicate AdvancedAt(g: ConfigGroup, h: ConfigGroup, kind: Kind, rel: seq<string>, i: nat)
    requires i <= |rel|
  {
    && SameBefore(g, h, kind, rel, i)
    && VersionAt(g, kind, rel, i).Some? && VersionAt(h, kind, rel, i).Some?
    && VersionAt(g, kind, rel, i).value < VersionAt(h, kind, rel, i).value
  }

  /** The versions on the way have grown, in the lexicographic order from the root. */
  ghost predicate Advanced(g: ConfigGroup, h: ConfigGroup, kind: Kind, rel: seq<string>) {
    exists i: nat | i <= |rel| :: AdvancedAt(g, h, kind, rel, i)
  }

  lemma {:induction false} FirstDifference(g: ConfigGroup, h: ConfigGroup, kind: Kind, rel: seq<string>, n: nat) returns (i: nat)
    requires n <= |rel| + 1
    ensures i <= n && SameBefore(g, h, kind, rel, i)
    ensures i < n ==> VersionAt(g, kind, rel, i) != VersionAt(h, kind, rel, i)
    decreases n
  {
    hide VersionAt;
    if n == 0 {
      i := 0;
    } else {
      i := FirstDifference(g, h, kind, rel, n - 1);
      if i == n - 1 && VersionAt(g, kind, rel, i) == VersionAt(h, kind, rel, i) {
        i := n;
      }
    }
  }

  lemma AdvancedThenForward(g: ConfigGroup, h: ConfigGroup, k: ConfigGroup, kind: Kind, rel: seq<string>)
    requires Advanced(g, h, kind, rel)
    requires Unmoved(h, k, kind, rel) || Advanced(h, k, kind, rel)
    ensures Advanced(g, k, kind, rel)
  {
    hide VersionAt;
    var i: nat :| i <= |rel| && AdvancedAt(g, h, kind, rel, i);
    if Unmoved(h, k, kind, rel) {
      assert AdvancedAt(g, k, kind, rel, i);
    } else {
      var j: nat :| j <= |rel| && AdvancedAt(h, k, kind, rel, j);
      assert AdvancedAt(g, k, kind, rel, if i < j then i else j);
    }
  }

  lemma UnmovedThenForward(g: ConfigGroup, h: ConfigGroup, k: ConfigGroup, kind: Kind, rel: seq<string>)
    requires Unmoved(g, h, kind, rel)
    requires Unmoved(h, k, kind, rel) || Advanced(h, k, kind, rel)
    ensures Unmoved(g, k, kind, rel) || Advanced(g, k, kind, rel)
  {
    hide VersionAt;
    if Advanced(h, k, kind, rel) {
      var j: nat :| j <= |rel| && AdvancedAt(h, k, kind, rel, j);
      assert AdvancedAt(g, k, kind, rel, j);
    }
  }

  /** An accepted update leaves the versions on the way to any place as they are, or advances them. */
  lemma StepForward(v: Validator, su: SignedUpdate, w: Validator, kind: Kind, rel: seq<string>)
    requires Step(v, su, w)
    ensures WellFormed(w)
    ensures Unmoved(Root(v), Root(w), kind, rel) || Advanced(Root(v), Root(w), kind, rel)
  {
    hide ValidIds; hide ValidId; hide Flatten; hide ValidChannelID; hide ProposedRoot; hide ElementAt; hide GroupAt; hide NewValidator; hide Upgraded; hide Bumped; hide Upgrades;
    StepFacts(v, su, w);
    var g, h := Root(v), Root(w);
    var i := FirstDifference(g, h, kind, rel, |rel| + 1);
    if i <= |rel| {
      var wk, at := WayKind(kind, rel, i), rel[..i];
      if Waypoint(g, kind, rel, i).Some? != Waypoint(h, kind, rel, i).Some? {
        AdditionsAndRemovalsAreApproved(v, su, wk, at);
        var j :| 0 <= j < |at| && GroupBumped(v, su, at[..j]);
        BumpShows(v, su, w, kind, rel, i, j);
        assert false;
      } else {
        NoSilentChange(v, su, wk, at);
        BumpedOrKept(v, su, w, kind, rel, i);
        assert AdvancedAt(g, h, kind, rel, i);
      }
    }
  }

  lemma BumpedOrKept(v: Validator, su: SignedUpdate, w: Validator, kind: Kind, rel: seq<string>, i: nat)
    requires WellFormed(v) && ProposedRoot(v, su).Ok? && w.config.channelGroup.Some?
    requires Root(w) == ProposedRoot(v, su).value && i <= |rel|
    requires Waypoint(Root(v), kind, rel, i).Some? && Waypoint(Root(w), kind, rel, i).Some?
    ensures VersionAt(Root(v), kind, rel, i).value <= VersionAt(Root(w), kind, rel, i).value
  {
    hide WellFormed; hide ProposedRoot; hide ElementAt; hide Approved; hide ContentOf;
    NoSilentChange(v, su, WayKind(kind, rel, i), rel[..i]);
  }

  lemma BumpShows(v: Validator, su: SignedUpdate, w: Validator, kind: Kind, rel: seq<string>, i: nat, j: nat)
    requires v.config.channelGroup.Some? && w.config.channelGroup.Some?
    requires ProposedRoot(v, su).Ok? && Root(w) == ProposedRoot(v, su).value
    requires j < i <= |rel| && GroupBumped(v, su, rel[..i][..j])
    ensures VersionAt(Root(v), kind, rel, j) != VersionAt(Root(w), kind, rel, j)
  {
    hide ProposedRoot; hide Approved; hide GroupAt; hide ElementAt;
    assert rel[..i][..j] == rel[..j];
    GroupElement(Root(v), rel[..j]);
    GroupElement(Root(w), rel[..j]);
  }

  lemma {:induction false} RunForward(vs: seq<Validator>, us: seq<SignedUpdate>, a: nat, b: nat, kind: Kind, rel: seq<string>)
    requires Run(vs, us) && a <= b < |vs|
    ensures WellFormed(vs[a]) && WellFormed(vs[b])
    ensures Unmoved(Root(vs[a]), Root(vs[b]), kind, rel) || Advanced(Root(vs[a]), Root(vs[b]), kind, rel)
    decreases b - a
  {
    hide ValidIds; hide ValidId; hide Flatten; hide ValidChannelID; hide Step; hide VersionAt;
    RunFacts(vs, us, a);
    RunFacts(vs, us, b);
    if a < b {
      hide Unmoved; hide Advanced;
      RunForward(vs, us, a + 1, b, kind, rel);
      StepForward(vs[a], us[a], vs[a + 1], kind, rel);
      if Advanced(Root(vs[a]), Root(vs[a + 1]), kind, rel) {
        AdvancedThenForward(Root(vs[a]), Root(vs[a + 1]), Root(vs[b]), kind, rel);
      } else {
        UnmovedThenForward(Root(vs[a]), Root(vs[a + 1]), Root(vs[b]), kind, rel);
      }
    }
  }

  // ---------------------------------------------------------------------------------------------
  // No replay
  // ---------------------------------------------------------------------------------------------

  /** The delta of the update holds an element of the current configuration. */
  ghost predicate TouchesExisting(v: Validator, u: ConfigUpdate) {
    Mappable(u, v.namespace) && exists key | key in DeltaOf(u, v.namespace) :: key in v.configMap
  }

  /** Every group on the way to an element exists. */
  lemma {:induction false} WaypointsExist(g: ConfigGroup, kind: Kind, rel: seq<string>, i: nat)
    requires i <= |rel| && ElementAt(g, kind, rel).Some?
    ensures Waypoint(g, kind, rel, i).Some?
    decreases |rel|
  {
    if i < |rel| {
      var front := rel[..|rel| - 1];
      GroupElement(g, front);
      WaypointsExist(g, GroupKind, front, i);
      assert front[..i] == rel[..i];
    } else {
      assert rel[..i] == rel;
    }
  }

  /** An update accepted in two states fixes the version, in both, of every current element its write set names. */
  lemma PinnedVersion(v: Validator, su: SignedUpdate, w: Validator, su': SignedUpdate, kind: Kind, rel: seq<string>)
    requires WellFormed(v) && WellFormed(w) && v.namespace == w.namespace
    requires Authorized(v, su) && Authorized(w, su') && su.update == su'.update
    requires ValidPath(rel) && ElementAt(Root(v), kind, rel).Some?
    requires Key(kind, [v.namespace] + rel) in WriteSetOf(su.update.value, v.namespace)
    ensures ElementAt(Root(w), kind, rel).Some?
    ensures ElementAt(Root(w), kind, rel).value.Version() == ElementAt(Root(v), kind, rel).value.Version()
  {
    hide ValidIds; hide ValidId; hide Flatten; hide ValidChannelID; hide Key; hide ElementAt; hide MapConfig; hide Approved; hide ValidModPolicy;
    CurrentElement(v, kind, rel);
    CurrentElement(w, kind, rel);
    var u, ns := su.update.value, v.namespace;
    var key := Key(kind, [ns] + rel);
    var delta := DeltaOf(u, ns);
    if key in delta {
      assert ChangeAllowed(v, key, delta[key], su.signatures.value);
      assert ChangeAllowed(w, key, delta[key], su'.signatures.value);
    } else {
      assert key in ReadSetOf(u, ns);
    }
  }

  /** The write set is a tree, so it names every group on the way to any element it names. */
  lemma WriteSetNamesTheWay(u: ConfigUpdate, namespace: string, kind: Kind, rel: seq<string>, i: nat)
    requires Mappable(u, namespace) && ValidPath(rel) && i <= |rel|
    requires Key(kind, [namespace] + rel) in WriteSetOf(u, namespace)
    ensures ValidPath(rel[..i])
    ensures Key(WayKind(kind, rel, i), [namespace] + rel[..i]) in WriteSetOf(u, namespace)
  {
    hide ValidIds; hide ValidId; hide Flatten; hide Key; hide ElementAt;
    var g := u.writeSet.value;
    FlattenExact([namespace], g, kind, rel);
    WaypointsExist(g, kind, rel, i);
    FlattenExact([namespace], g, WayKind(kind, rel, i), rel[..i]);
  }

  /** An update accepted in two states sees the same versions on the way to each current element it changes. */
  lemma PinnedWay(v: Validator, su: SignedUpdate, w: Validator, su': SignedUpdate, kind: Kind, rel: seq<string>)
    requires WellFormed(v) && WellFormed(w) && v.namespace == w.namespace
    requires Authorized(v, su) && Authorized(w, su') && su.update == su'.update
    requires ValidPath(rel) && ElementAt(Root(v), kind, rel).Some?
    requires Key(kind, [v.namespace] + rel) in DeltaOf(su.update.value, v.namespace)
    ensures Unmoved(Root(v), Root(w), kind, rel)
  {
    hide ValidIds; hide ValidId; hide Flatten; hide ValidChannelID; hide Key; hide ElementAt; hide MapConfig;
    hide DeltaAllowed; hide ReadSetCurrent;
    forall i: nat | i <= |rel| ensures VersionAt(Root(v), kind, rel, i) == VersionAt(Root(w), kind, rel, i) {
      WriteSetNamesTheWay(su.update.value, v.namespace, kind, rel, i);
      WaypointsExist(Root(v), kind, rel, i);
      PinnedVersion(v, su, w, su', WayKind(kind, rel, i), rel[..i]);
    }
  }

  /** The place of the element that a key of the current configuration map stands for. */
  lemma PlaceOf(v: Validator, key: string) returns (kind: Kind, rel: seq<string>)
    requires WellFormed(v) && key in v.configMap
    ensures ValidPath(rel) && key == Key(kind, [v.namespace] + rel)
    ensures ElementAt(Root(v), kind, rel).Some?
  {
    hide ValidIds; hide ValidId; hide ValidChannelID; hide Key; hide ElementAt; hide Flatten;
    kind, rel := FlattenPlace(v.namespace, Root(v), key);
  }

  /** The step that applies an update moves the versions on the way to each current element it changes. */
  lemma TouchAdvances(v: Validator, su: SignedUpdate, w: Validator, kind: Kind, rel: seq<string>)
    requires Step(v, su, w) && Authorized(v, su) && WellFormed(w)
    requires ElementAt(Root(v), kind, rel).Some?
    requires Key(kind, [v.namespace] + rel) in DeltaOf(su.update.value, v.namespace)
    ensures Advanced(Root(v), Root(w), kind, rel)
  {
    hide ValidIds; hide ValidId; hide Flatten; hide ValidChannelID; hide Key; hide ElementAt; hide MapConfig; hide ProposedRoot; hide NewValidator;
    hide DeltaAllowed; hide ReadSetCurrent; hide Advanced; hide Bumped; hide Upgrades;
    StepFacts(v, su, w);
    StepForward(v, su, w, kind, rel);
    if Unmoved(Root(v), Root(w), kind, rel) {
      assert rel[..|rel|] == rel;
      assert VersionAt(Root(v), kind, rel, |rel|) == VersionAt(Root(w), kind, rel, |rel|);
      NoSilentChange(v, su, kind, rel);
      assert false;
    }
  }

  /**
   No replay: an update that changed an element of the configuration it was applied to is never
   accepted again in the same run, whatever signatures it comes with and whatever happened since.
   */
  lemma NoReplay(vs: seq<Validator>, us: seq<SignedUpdate>, a: nat, b: nat)
    requires Run(vs, us) && a < b < |us|
    requires us[a].update.Some? && TouchesExisting(vs[a], us[a].update.value)
    ensures us[b].update != us[a].update
  {
    hide ValidIds; hide ValidId; hide Flatten; hide ValidChannelID; hide Key; hide ElementAt; hide MapConfig; hide ProposedRoot; hide NewValidator; hide DeltaAllowed; hide ReadSetCurrent;
    hide Mappable; hide Advanced; hide Unmoved; hide Step;
    if us[b].update == us[a].update {
      RunFacts(vs, us, a);
      RunFacts(vs, us, b);
      StepAuthorized(vs[a], us[a], vs[a + 1]);
      StepAuthorized(vs[b], us[b], vs[b + 1]);
      var key :| key in DeltaOf(us[a].update.value, vs[a].namespace) && key in vs[a].configMap;
      var kind, rel := PlaceOf(vs[a], key);
      RunFacts(vs, us, a + 1);
      TouchAdvances(vs[a], us[a], vs[a + 1], kind, rel);
      RunForward(vs, us, a + 1, b, kind, rel);
      AdvancedThenForward(Root(vs[a]), Root(vs[a + 1]), Root(vs[b]), kind, rel);
      PinnedWay(vs[a], us[a], vs[b], us[b], kind, rel);
      AdvancedIsNotUnmoved(Root(vs[a]), Root(vs[b]), kind, rel);
      assert false;
    }
  }

  lemma StepAuthorized(v: Validator, su: SignedUpdate, w: Validator)
    requires Step(v, su, w)
    ensures Authorized(v, su)
  {
    hide WellFormed; hide ProposedRoot; hide NewValidator; hide Authorized;
    AcceptedIsAuthorized(v, su);
  }

  lemma AdvancedIsNotUnmoved(g: ConfigGroup, h: ConfigGroup, kind: Kind, rel: seq<string>)
    requires Advanced(g, h, kind, rel)
    ensures !Unmoved(g, h, kind, rel)
  {
    hide VersionAt;
    var i: nat :| i <= |rel| && AdvancedAt(g, h, kind, rel, i);
    assert VersionAt(g, kind, rel, i) != VersionAt(h, kind, rel, i);
  }

  // ---------------------------------------------------------------------------------------------
  // Updates that are accepted
  // ---------------------------------------------------------------------------------------------

  function Bump(g: ConfigGroup): ConfigGroup {
    g.(version := g.version + 1)
  }

  /** The update that reads the whole configuration and writes it back with the version of the root moved up. */
  function BumpRoot(v: Validator, signatures: seq<SignedData>): SignedUpdate
    requires v.config.channelGroup.Some?
  {
    SignedUpdate(Some(ConfigUpdate(v.channelID, Some(Root(v)), Some(Bump(Root(v))))), Some(signatures))
  }

  lemma {:induction false} BumpKeepsBelow(g: ConfigGroup, rel: seq<string>)
    requires rel != []
    ensures GroupAt(Bump(g), rel) == GroupAt(g, rel)
    decreases |rel|
  {
    if |rel| > 1 {
      BumpKeepsBelow(g, rel[..|rel| - 1]);
    }
  }

  lemma BumpKeepsElements(g: ConfigGroup, kind: Kind, rel: seq<string>)
    requires rel != []
    ensures ElementAt(Bump(g), kind, rel) == ElementAt(g, kind, rel)
  {
    if |rel| > 1 {
      hide GroupAt;
      BumpKeepsBelow(g, rel[..|rel| - 1]);
    }
  }

  /** The delta of that update is the root alone. */
  lemma BumpDelta(v: Validator, signatures: seq<SignedData>, key: string)
    requires WellFormed(v)
    ensures Mappable(BumpRoot(v, signatures).update.value, v.namespace)
    ensures var delta := DeltaOf(BumpRoot(v, signatures).update.value, v.namespace);
            && (key in delta <==> key == Key(GroupKind, [v.namespace]))
            && (key in delta ==> delta[key] == Named([v.namespace], Group(Bump(Root(v)))))
  {
    hide ValidId; hide Index; hide ValidChannelID; hide Key; hide ElementAt; hide Elements; hide FullPath; hide Flatten; hide ValidPath;
    var ns, g := v.namespace, Root(v);
    assert ValidIds(Bump(g));
    hide ValidIds;
    assert ValidPath([ns]) && ValidPath([]) by { OneName(ns); }
    assert [ns] + [] == [ns];
    BumpedRoot(g);
    FlattenExact([ns], Bump(g), GroupKind, []);
    FlattenExact([ns], g, GroupKind, []);
    var writeSet := Flatten([ns], Bump(g));
    if key in writeSet && key != Key(GroupKind, [ns]) {
      var kind, rel := FlattenPlace(ns, Bump(g), key);
      if rel == [] {
        RootOnly(Bump(g), kind);
      } else {
        BumpKeepsElements(g, kind, rel);
        FlattenExact([ns], Bump(g), kind, rel);
        FlattenExact([ns], g, kind, rel);
      }
    }
  }

  lemma BumpedRoot(g: ConfigGroup)
    ensures ElementAt(g, GroupKind, []) == Some(Group(g)) && ElementAt(Bump(g), GroupKind, []) == Some(Group(Bump(g)))
    ensures Group(Bump(g)).Version() == Group(g).Version() + 1 && Group(Bump(g)).ModPolicy() == Group(g).ModPolicy()
  {
  }

  lemma RootOnly(g: ConfigGroup, kind: Kind)
    requires ElementAt(g, kind, []).Some?
    ensures kind == GroupKind
  {
  }

  /** Whoever the mod_policy of the root accepts can change the root: such an update is accepted, and touches what exists. */
  lemma RootCanBeChanged(v: Validator, signatures: seq<SignedData>)
    requires WellFormed(v) && ValidModPolicy(Root(v).modPolicy)
    requires Approved(v, Named([v.namespace], Group(Root(v))), signatures)
    ensures ProposedRoot(v, BumpRoot(v, signatures)).Ok?
    ensures TouchesExisting(v, BumpRoot(v, signatures).update.value)
  {
    hide ValidId; hide Index; hide ValidChannelID; hide Key; hide ElementAt; hide Elements; hide Flatten; hide ValidPath; hide Approved;
    hide ValidModPolicy; hide DeltaSet; hide ProposedRoot; hide Rebuild; hide PathString; hide ValidIds;
    var su, ns := BumpRoot(v, signatures), v.namespace;
    var u, root := su.update.value, Key(GroupKind, [ns]);
    BumpDelta(v, signatures, root);
    BumpedRoot(Root(v));
    assert [ns] + [] == [ns];
    OneName(ns);
    CurrentElement(v, GroupKind, []);
    var delta := DeltaOf(u, ns);
    forall key | key in delta ensures ChangeAllowed(v, key, delta[key], signatures) {
      BumpDelta(v, signatures, key);
    }
    AuthorizedRebuilds(v, su);
  }

  const ROOT: string := "Channel"
  const ADMINS: string := "Admins"
  const BARE: ConfigGroup := ConfigGroup(0, map[], map[], map[], ADMINS)
  const OPEN: Manager<Evaluator> := Manager(ROOT, map[ADMINS := Evaluator(_ => true)], map[])

  lemma ValidNames()
    ensures ValidId(ROOT) && ValidId(ADMINS) && ValidChannelID("c") && ValidIds(BARE)
  {
  }

  lemma BareValidator() returns (v: Validator)
    ensures v.config.channelGroup == Some(BARE) && WellFormed(v)
    ensures ValidModPolicy(Root(v).modPolicy) && Approved(v, Named([v.namespace], Group(Root(v))), [])
  {
    hide Flatten; hide ValidId; hide ValidIds; hide ValidChannelID; hide SplitPath; hide WellFormed;
    ValidNames();
    v := NewValidator("c", Some(Config(0, Some(BARE))), ROOT, OPEN).value;
    NewValidatorIsWellFormed("c", Some(Config(0, Some(BARE))), ROOT, OPEN);
    SplitPlain(ADMINS);
  }

  /** There are runs with updates that touch what exists. */
  lemma SomeRun() returns (v: Validator, su: SignedUpdate, w: Validator)
    ensures Run([v, w], [su]) && su.update.Some? && TouchesExisting(v, su.update.value)
  {
    hide WellFormed; hide ProposedRoot; hide NewValidator; hide TouchesExisting; hide Approved; hide ValidModPolicy;
    v := BareValidator();
    su := BumpRoot(v, []);
    RootCanBeChanged(v, []);
    ProposalLoads(v, su, v.pm);
    w := NextState(v, su);
  }

  lemma NextState(v: Validator, su: SignedUpdate) returns (w: Validator)
    requires WellFormed(v) && ProposedRoot(v, su).Ok?
    requires NewValidator(v.channelID, Some(Config(v.sequence + 1, Some(ProposedRoot(v, su).value))), v.namespace, v.pm).Some?
    ensures Step(v, su, w)
  {
    hide WellFormed; hide ProposedRoot; hide MapConfig; hide ValidChannelID;
    w := NewValidator(v.channelID, Some(Config(v.sequence + 1, Some(ProposedRoot(v, su).value))), v.namespace, v.pm).value;
  }

  // ---------------------------------------------------------------------------------------------
  // Exactly which updates can be replayed
  // ---------------------------------------------------------------------------------------------

  lemma {:induction false} UpgradedGroupAt(g: ConfigGroup, on: bool, rel: seq<string>)
    ensures GroupAt(UpgradeTree(g, on), rel) ==
            if GroupAt(g, rel).Some? then Some(UpgradeTree(GroupAt(g, rel).value, on)) else None
    decreases |rel|
  {
    hide UpgradeValue; hide UpgradePolicy; hide Upgrade;
    if rel != [] {
      UpgradedGroupAt(g, on, rel[..|rel| - 1]);
    }
  }

  lemma UpgradedElementAt(g: ConfigGroup, on: bool, kind: Kind, rel: seq<string>)
    ensures ElementAt(UpgradeTree(g, on), kind, rel).Some? <==> ElementAt(g, kind, rel).Some?
    ensures ElementAt(g, kind, rel).Some? ==>
              ElementAt(UpgradeTree(g, on), kind, rel).value.Version() == ElementAt(g, kind, rel).value.Version()
  {
    hide Upgrade; hide GroupAt;
    if rel != [] {
      UpgradedGroupAt(g, on, rel[..|rel| - 1]);
    }
  }

  /** Upgrading the mod_policies of a configuration changes neither the keys nor the versions of its map. */
  lemma UpgradeKeepsKeys(v: Validator, w: Validator, on: bool, key: string)
    requires WellFormed(v) && WellFormed(w) && v.namespace == w.namespace
    requires Root(w) == UpgradeTree(Root(v), on)
    ensures key in v.configMap <==> key in w.configMap
    ensures key in v.configMap ==> v.configMap[key].item.Version() == w.configMap[key].item.Version()
  {
    hide ValidIds; hide ValidId; hide Flatten; hide ValidChannelID; hide Key; hide ElementAt; hide UpgradeTree;
    if key in v.configMap {
      var kind, rel := PlaceOf(v, key);
      UpgradedElementAt(Root(v), on, kind, rel);
      CurrentElement(v, kind, rel);
      CurrentElement(w, kind, rel);
    } else if key in w.configMap {
      var kind, rel := PlaceOf(w, key);
      UpgradedElementAt(Root(v), on, kind, rel);
      CurrentElement(v, kind, rel);
    }
  }

  /** An accepted update that touches nothing that exists leaves the tree as it is, up to the mod_policy upgrade. */
  lemma UntouchedTreeStays(v: Validator, su: SignedUpdate, w: Validator)
    requires Step(v, su, w) && Authorized(v, su) && WellFormed(w)
    requires !TouchesExisting(v, su.update.value)
    ensures Root(w) == UpgradeTree(Root(v), UpgradeOn(FullOf(v, su.update.value)))
  {
    hide ValidIds; hide ValidId; hide Index; hide ValidChannelID; hide Rebuild; hide PathString; hide UpgradeTree; hide NewValidator;
    hide MapConfig; hide DeltaAllowed; hide ReadSetCurrent; hide Elements; hide KeyOf; hide DeltaSet; hide UpgradeOn; hide ProposedRoot;
    StepFacts(v, su, w);
    AuthorizedRebuilds(v, su);
    FlattenIsIndex([v.namespace], Root(v));
    RebuildHeldTree(FullOf(v, su.update.value), [v.namespace], Root(v));
  }

  /** The delta, seen from a state with the same keys and versions, passes again if it touches nothing. */
  lemma UntouchedPassesAgain(v: Validator, su: SignedUpdate, w: Validator, on: bool)
    requires WellFormed(v) && WellFormed(w) && v.namespace == w.namespace && v.channelID == w.channelID
    requires Root(w) == UpgradeTree(Root(v), on)
    requires Authorized(v, su) && !TouchesExisting(v, su.update.value)
    ensures Authorized(w, su)
  {
    hide WellFormed; hide MapConfig; hide UpgradeTree; hide Approved; hide ValidModPolicy; hide DeltaSet;
    var u, ns := su.update.value, v.namespace;
    forall key | key in ReadSetOf(u, ns)
      ensures key in w.configMap && w.configMap[key].item.Version() == ReadSetOf(u, ns)[key].item.Version()
    {
      UpgradeKeepsKeys(v, w, on, key);
    }
    forall key | key in DeltaOf(u, ns) ensures ChangeAllowed(w, key, DeltaOf(u, ns)[key], su.signatures.value) {
      UpgradeKeepsKeys(v, w, on, key);
      assert ChangeAllowed(v, key, DeltaOf(u, ns)[key], su.signatures.value);
    }
  }

  /** An accepted update is accepted a second time, straight after, exactly when it touched nothing that existed. */
  lemma ReplayableExactlyWhenUntouched(v: Validator, su: SignedUpdate, w: Validator)
    requires Step(v, su, w)
    ensures su.update.Some?
    ensures ProposedRoot(w, su).Ok? <==> !TouchesExisting(v, su.update.value)
  {
    hide ValidIds; hide ValidId; hide Flatten; hide ValidChannelID; hide Rebuild; hide PathString; hide UpgradeTree; hide NewValidator; hide ProposedRoot;
    hide MapConfig; hide DeltaAllowed; hide ReadSetCurrent; hide TouchesExisting; hide DeltaSet; hide UpgradeOn;
    StepFacts(v, su, w);
    StepAuthorized(v, su, w);
    if TouchesExisting(v, su.update.value) {
      if ProposedRoot(w, su).Ok? {
        ProposalLoads(w, su, w.pm);
        TwoStepRun(v, su, w);
        assert false;
      }
    } else {
      UntouchedTreeStays(v, su, w);
      UntouchedPassesAgain(v, su, w, UpgradeOn(FullOf(v, su.update.value)));
      AuthorizedRebuilds(w, su);
    }
  }

  lemma TwoStepRun(v: Validator, su: SignedUpdate, w: Validator)
    requires Step(v, su, w) && WellFormed(w) && su.update.Some?
    requires ProposedRoot(w, su).Ok?
    requires NewValidator(w.channelID, Some(Config(w.sequence + 1, Some(ProposedRoot(w, su).value))), w.namespace, w.pm).Some?
    ensures !TouchesExisting(v, su.update.value)
  {
    hide WellFormed; hide ProposedRoot; hide MapConfig; hide ValidChannelID; hide TouchesExisting;
    var x := NewValidator(w.channelID, Some(Config(w.sequence + 1, Some(ProposedRoot(w, su).value))), w.namespace, w.pm).value;
    assert Step(w, su, x);
    hide Step; hide NewValidator;
    assert Run([v, w, x], [su, su]) by {
      assert WellFormed(v) by { StepSource(v, su, w); }
    }
    if TouchesExisting(v, su.update.value) {
      NoReplay([v, w, x], [su, su], 0, 1);
    }
  }

  lemma StepSource(v: Validator, su: SignedUpdate, w: Validator)
    requires Step(v, su, w)
    ensures WellFormed(v)
  {
    hide WellFormed; hide ProposedRoot; hide NewValidator;
  }

  function WithValue(g: ConfigGroup, k: string, value: ConfigValue): ConfigGroup {
    g.(values := g.values[k := value])
  }

  /** The update that writes one more value into the root but leaves the version of the root alone. */
  function AddUnnoticed(v: Validator, k: string, value: ConfigValue, signatures: seq<SignedData>): SignedUpdate
    requires v.config.channelGroup.Some?
  {
    SignedUpdate(Some(ConfigUpdate(v.channelID, Some(Root(v)), Some(WithValue(Root(v), k, value)))), Some(signatures))
  }

  lemma {:induction false} WithValueKeepsGroups(g: ConfigGroup, k: string, value: ConfigValue, rel: seq<string>)
    requires rel != []
    ensures GroupAt(WithValue(g, k, value), rel) == GroupAt(g, rel)
    decreases |rel|
  {
    if |rel| > 1 {
      WithValueKeepsGroups(g, k, value, rel[..|rel| - 1]);
    }
  }

  lemma WithValueElements(g: ConfigGroup, k: string, value: ConfigValue, kind: Kind, rel: seq<string>)
    ensures ElementAt(WithValue(g, k, value), ValueKind, [k]) == Some(Value(value))
    ensures kind != ValueKind || rel != [k] ==>
              var before, after := ElementAt(g, kind, rel), ElementAt(WithValue(g, k, value), kind, rel);
              before.Some? == after.Some? && (before.Some? ==> before.value.Version() == after.value.Version())
  {
    assert [k][..0] == [];
    if |rel| == 1 {
      assert rel == [rel[0]];
    } else if |rel| > 1 {
      hide GroupAt;
      WithValueKeepsGroups(g, k, value, rel[..|rel| - 1]);
    }
  }

  /** The delta of that update is the new value alone. */
  lemma UnnoticedDelta(v: Validator, k: string, value: ConfigValue, signatures: seq<SignedData>, key: string)
    requires WellFormed(v) && ValidId(k) && k !in Root(v).values
    ensures Mappable(AddUnnoticed(v, k, value, signatures).update.value, v.namespace)
    ensures var delta := DeltaOf(AddUnnoticed(v, k, value, signatures).update.value, v.namespace);
            && (key in delta <==> key == Key(ValueKind, [v.namespace] + [k]))
            && (key in delta ==> delta[key].item == Value(value))
    ensures Key(ValueKind, [v.namespace] + [k]) !in v.configMap
  {
    var ns, g := v.namespace, Root(v);
    assert ValidIds(WithValue(g, k, value));
    assert ElementAt(g, ValueKind, [k]).None? by { assert [k][..0] == []; }
    hide ValidId; hide ValidChannelID; hide Key; hide ElementAt; hide Flatten; hide ValidPath; hide ValidIds;
    OneName(ns);
    OneName(k);
    WithValueElements(g, k, value, ValueKind, [k]);
    FlattenExact([ns], WithValue(g, k, value), ValueKind, [k]);
    FlattenExact([ns], g, ValueKind, [k]);
    if key in Flatten([ns], WithValue(g, k, value)) && key != Key(ValueKind, [ns] + [k]) {
      var kind, rel := FlattenPlace(ns, WithValue(g, k, value), key);
      WithValueElements(g, k, value, kind, rel);
      FlattenExact([ns], WithValue(g, k, value), kind, rel);
      FlattenExact([ns], g, kind, rel);
    }
  }

  /** In every state, whoever signs it, such an update is accepted although it changes nothing. */
  lemma UnnoticedIsAccepted(v: Validator, k: string, value: ConfigValue, signatures: seq<SignedData>)
    requires WellFormed(v) && ValidId(k) && k !in Root(v).values && value.version == 0 && ValidModPolicy(value.modPolicy)
    ensures ProposedRoot(v, AddUnnoticed(v, k, value, signatures)).Ok?
    ensures !TouchesExisting(v, AddUnnoticed(v, k, value, signatures).update.value)
  {
    hide ValidId; hide ValidChannelID; hide Key; hide ElementAt; hide Flatten; hide ValidPath; hide Approved;
    hide ValidModPolicy; hide DeltaSet; hide ProposedRoot; hide Rebuild; hide PathString; hide ValidIds;
    var su, ns := AddUnnoticed(v, k, value, signatures), v.namespace;
    var u, added := su.update.value, Key(ValueKind, [v.namespace] + [k]);
    UnnoticedDelta(v, k, value, signatures, added);
    var delta := DeltaOf(u, ns);
    forall key | key in delta ensures key !in v.configMap && ChangeAllowed(v, key, delta[key], signatures) {
      UnnoticedDelta(v, k, value, signatures, key);
    }
    AuthorizedRebuilds(v, su);
  }

  /** There are updates that are accepted, touch nothing that exists, and are accepted again. */
  lemma SomeReplay() returns (v: Validator, su: SignedUpdate, w: Validator)
    ensures Step(v, su, w) && su.update.Some? && !TouchesExisting(v, su.update.value) && ProposedRoot(w, su).Ok?
  {
    hide WellFormed; hide ProposedRoot; hide NewValidator; hide TouchesExisting; hide ValidModPolicy; hide ValidId; hide ValidIds; hide ValidChannelID; hide Approved;
    v := BareValidator();
    ValidNames();
    su := AddUnnoticed(v, ROOT, ConfigValue(0, [], ADMINS), []);
    UnnoticedIsAccepted(v, ROOT, ConfigValue(0, [], ADMINS), []);
    ProposalLoads(v, su, v.pm);
    w := NextState(v, su);
    ReplayableExactlyWhenUntouched(v, su, w);
  }

  // ---------------------------------------------------------------------------------------------
  // Who approved each change
  // ---------------------------------------------------------------------------------------------

  /** The element is absent from both trees, or in both and the same up to the upgrade, if that is on. */
  predicate Unchanged(g: ConfigGroup, h: ConfigGroup, kind: Kind, rel: seq<string>, on: bool) {
    var before, after := ElementAt(g, kind, rel), ElementAt(h, kind, rel);
    && before.Some? == after.Some?
    && (before.Some? ==> Upgraded(after.value, before.value, on))
  }

  /** The update bumped the element, or a group on the way to it, with the approval of that one's mod_policy. */
  ghost predicate WaypointBumped(v: Validator, su: SignedUpdate, kind: Kind, rel: seq<string>, i: nat)
    requires v.config.channelGroup.Some? && i <= |rel|
  {
    && ProposedRoot(v, su).Ok?
    && var before, after := Waypoint(Root(v), kind, rel, i), Waypoint(ProposedRoot(v, su).value, kind, rel, i);
       before.Some? && after.Some? && Bumped(v, su, rel[..i], before.value, after.value)
  }

  /** The update bumped something between the root and the element, the element included. */
  ghost predicate ApprovedOnTheWay(v: Validator, su: SignedUpdate, kind: Kind, rel: seq<string>) {
    v.config.channelGroup.Some? && exists i: nat | i <= |rel| :: WaypointBumped(v, su, kind, rel, i)
  }

  lemma StepChangesAreApproved(v: Validator, su: SignedUpdate, w: Validator, kind: Kind, rel: seq<string>)
    requires Step(v, su, w) && WellFormed(w)
    ensures Unchanged(Root(v), Root(w), kind, rel, Upgrades(v, su)) || ApprovedOnTheWay(v, su, kind, rel)
  {
    hide ValidIds; hide ValidId; hide Flatten; hide ValidChannelID; hide ProposedRoot; hide NewValidator; hide ElementAt; hide GroupAt; hide Upgraded; hide Bumped; hide Upgrades;
    StepFacts(v, su, w);
    if ElementAt(Root(v), kind, rel).Some? != ElementAt(Root(w), kind, rel).Some? {
      AdditionsAndRemovalsAreApproved(v, su, kind, rel);
      var i :| 0 <= i < |rel| && GroupBumped(v, su, rel[..i]);
      GroupElement(Root(v), rel[..i]);
      GroupElement(Root(w), rel[..i]);
      assert WaypointBumped(v, su, kind, rel, i);
    } else if ElementAt(Root(v), kind, rel).Some? {
      NoSilentChange(v, su, kind, rel);
      assert rel[..|rel|] == rel;
      if !Upgraded(ElementAt(Root(w), kind, rel).value, ElementAt(Root(v), kind, rel).value, Upgrades(v, su)) {
        assert WaypointBumped(v, su, kind, rel, |rel|);
      }
    }
  }

  lemma UnchangedTransitive(g: ConfigGroup, h: ConfigGroup, k: ConfigGroup, kind: Kind, rel: seq<string>, on: bool, then': bool)
    requires Unchanged(g, h, kind, rel, on) && Unchanged(h, k, kind, rel, then')
    ensures Unchanged(g, k, kind, rel, on || then')
  {
    hide ElementAt; hide ContentOf;
  }

  /** Some update of the first `n` filled in empty mod_policies. */
  ghost predicate UpgradedWithin(vs: seq<Validator>, us: seq<SignedUpdate>, n: nat)
    requires n <= |vs| && n <= |us|
  {
    exists c | 0 <= c < n :: Upgrades(vs[c], us[c])
  }

  /** Over a whole run, an element differs at the end only if some update on the run was approved on the way to it. */
  lemma {:induction false} RunChangesAreApproved(vs: seq<Validator>, us: seq<SignedUpdate>, n: nat, kind: Kind, rel: seq<string>)
    requires Run(vs, us) && n <= |us|
    ensures WellFormed(vs[0]) && WellFormed(vs[n])
    ensures || Unchanged(Root(vs[0]), Root(vs[n]), kind, rel, UpgradedWithin(vs, us, n))
            || exists c | 0 <= c < n :: ApprovedOnTheWay(vs[c], us[c], kind, rel)
    decreases n
  {
    hide ValidIds; hide ValidId; hide Flatten; hide ValidChannelID; hide Step; hide ApprovedOnTheWay; hide ElementAt; hide ContentOf;
    RunFacts(vs, us, n);
    if n > 0 {
      RunChangesAreApproved(vs, us, n - 1, kind, rel);
      StepChangesAreApproved(vs[n - 1], us[n - 1], vs[n], kind, rel);
      var before, now := UpgradedWithin(vs, us, n - 1), Upgrades(vs[n - 1], us[n - 1]);
      if Unchanged(Root(vs[0]), Root(vs[n - 1]), kind, rel, before) && Unchanged(Root(vs[n - 1]), Root(vs[n]), kind, rel, now) {
        UnchangedTransitive(Root(vs[0]), Root(vs[n - 1]), Root(vs[n]), kind, rel, before, now);
        assert UpgradedWithin(vs, us, n) == (before || now);
      }
    }
  }

  // ---------------------------------------------------------------------------------------------
  // Replicas
  // ---------------------------------------------------------------------------------------------

  /** A replica adopts the configuration of an envelope it validates and skips any other envelope. */
  ghost function Adopt(v: Validator, env: Option<ConfigEnvelope>, managerOf: ConfigGroup -> Manager<Evaluator>): Validator {
    if !Validate(v, env) then v
    else
      match NewValidator(v.channelID, env.value.config, v.namespace, managerOf(env.value.config.value.channelGroup.value))
      case Some(w) => w
      case None => v
  }

  ghost function Replay(v: Validator, envs: seq<Option<ConfigEnvelope>>, managerOf: ConfigGroup -> Manager<Evaluator>): Validator {
    if envs == [] then v
    else Adopt(Replay(v, envs[..|envs| - 1], managerOf), envs[|envs| - 1], managerOf)
  }

  /** The updates of the envelopes of the stream that the replica accepts, in order. */
  ghost function AcceptedUpdates(v: Validator, envs: seq<Option<ConfigEnvelope>>, managerOf: ConfigGroup -> Manager<Evaluator>): seq<SignedUpdate> {
    if envs == [] then []
    else
      var front, last := envs[..|envs| - 1], envs[|envs| - 1];
      var before := AcceptedUpdates(v, front, managerOf);
      if Validate(Replay(v, front, managerOf), last) then before + [last.value.lastUpdate.value] else before
  }

  /** The state a proposer is in after its own proposal for the update has become the configuration. */
  ghost function Apply(v: Validator, su: SignedUpdate, managerOf: ConfigGroup -> Manager<Evaluator>): Validator {
    match ProposedRoot(v, su)
    case Err(_) => v
    case Ok(root) =>
      match NewValidator(v.channelID, Some(Config(v.sequence + 1, Some(root))), v.namespace, managerOf(root))
      case Some(w) => w
      case None => v
  }

  ghost function ApplyAll(v: Validator, us: seq<SignedUpdate>, managerOf: ConfigGroup -> Manager<Evaluator>): Validator {
    if us == [] then v
    else Apply(ApplyAll(v, us[..|us| - 1], managerOf), us[|us| - 1], managerOf)
  }

  lemma AdoptIsApply(v: Validator, env: Option<ConfigEnvelope>, managerOf: ConfigGroup -> Manager<Evaluator>)
    requires WellFormed(v) && Validate(v, env)
    ensures env.Some? && env.value.lastUpdate.Some?
    ensures Adopt(v, env, managerOf) == Apply(v, env.value.lastUpdate.value, managerOf)
    ensures Step(v, env.value.lastUpdate.value, Adopt(v, env, managerOf))
  {
    hide WellFormed; hide ProposedRoot; hide MapConfig; hide ValidChannelID;
    ProposalLoads(v, env.value.lastUpdate.value, managerOf(env.value.config.value.channelGroup.value));
  }

  lemma SkipKeeps(v: Validator, env: Option<ConfigEnvelope>, managerOf: ConfigGroup -> Manager<Evaluator>)
    requires !Validate(v, env)
    ensures Adopt(v, env, managerOf) == v
  {
    hide Validate;
  }

  /**
   Whatever stream of envelopes a replica reads, it ends in the state a proposer reaches by applying
   the accepted updates itself, one after the other. Those updates form a run, so all that is proved
   of runs holds of replicas, and the sequence number has grown by their number.
   */
  lemma {:induction false} ReplayIsRun(v: Validator, envs: seq<Option<ConfigEnvelope>>, managerOf: ConfigGroup -> Manager<Evaluator>)
    returns (vs: seq<Validator>)
    requires WellFormed(v)
    ensures var us := AcceptedUpdates(v, envs, managerOf);
            && Run(vs, us) && vs[0] == v && vs[|us|] == Replay(v, envs, managerOf)
            && Replay(v, envs, managerOf) == ApplyAll(v, us, managerOf)
            && Replay(v, envs, managerOf).sequence == v.sequence + |us|
    decreases |envs|
  {
    hide WellFormed; hide Step; hide Validate; hide Adopt; hide Apply;
    if envs == [] {
      vs := [v];
    } else {
      var front, last := envs[..|envs| - 1], envs[|envs| - 1];
      vs := ReplayIsRun(v, front, managerOf);
      var us, now := AcceptedUpdates(v, front, managerOf), Replay(v, front, managerOf);
      RunFacts(vs, us, |us|);
      if Validate(now, last) {
        AdoptIsApply(now, last, managerOf);
        vs := vs + [Adopt(now, last, managerOf)];
        var more := us + [last.value.lastUpdate.value];
        assert more[..|more| - 1] == us;
        RunFacts(vs, more, |more|);
      } else {
        SkipKeeps(now, last, managerOf);
      }
    }
  }

  /** Replicas that start equal and accept the same updates end equal, whatever else their streams held. */
  lemma ReplicasAgree(v: Validator, envs: seq<Option<ConfigEnvelope>>, envs': seq<Option<ConfigEnvelope>>,
                      managerOf: ConfigGroup -> Manager<Evaluator>)
    requires WellFormed(v)
    requires AcceptedUpdates(v, envs, managerOf) == AcceptedUpdates(v, envs', managerOf)
    ensures Replay(v, envs, managerOf) == Replay(v, envs', managerOf)
  {
    hide WellFormed; hide Replay; hide AcceptedUpdates; hide ApplyAll; hide Run;
    var _ := ReplayIsRun(v, envs, managerOf);
    var _ := ReplayIsRun(v, envs', managerOf);
  }
}
