/**
 The loops of `common/configtx`, each proved against the function that the other modules reason
 about. Go visits the entries of a map in no particular order; so do these loops.
 */
module ConfigLoops {
  import opened Wrappers
  import opened ConfigTree
  import opened ConfigMap
  import opened ConfigUpdate

  // ---------------------------------------------------------------------------------------------
  // configmap.go
  // ---------------------------------------------------------------------------------------------

  lemma IndexUnion(a: set<Comparable>, b: set<Comparable>)
    requires DistinctKeys(a + b)
    ensures DistinctKeys(a) && DistinctKeys(b)
    ensures Index(a) + Index(b) == Index(a + b)
  {
    hide KeyOf; hide Index;
    var l, r := Index(a) + Index(b), Index(a + b);
    forall key | key in l ensures key in r && l[key] == r[key] {
      assert KeyOf(l[key]) == key && l[key] in a + b;
    }
    forall key | key in r ensures key in l {
      assert KeyOf(r[key]) == key && r[key] in a + b;
    }
  }

  /** The map `now` is `base` overlaid with the part `done` of the tree's elements. */
  ghost predicate Filled(base: ElementMap, now: ElementMap, done: set<Comparable>, path: seq<string>, g: ConfigGroup)
    requires path != []
  {
    ValidPart(done, path, g) && DistinctKeys(done) && now == base + Index(done)
  }

  lemma GrowBy(base: ElementMap, now: ElementMap, done: set<Comparable>, extra: set<Comparable>, path: seq<string>, g: ConfigGroup)
    requires path != [] && Filled(base, now, done, path, g) && ValidPart(extra, path, g) && DistinctKeys(extra)
    ensures Filled(base, now + Index(extra), done + extra, path, g)
  {
    hide KeyOf; hide Elements; hide Index; hide ValidPath; hide FullPath; hide DistinctKeys;
    PartKeysDistinct(done + extra, path, g);
    IndexUnion(done, extra);
    assert base + Index(done) + Index(extra) == base + (Index(done) + Index(extra));
  }

  lemma IndexOne(e: Comparable)
    ensures DistinctKeys({e}) && Index({e}) == map[KeyOf(e) := e]
  {
    hide KeyOf;
  }

  lemma GrowByOne(base: ElementMap, now: ElementMap, done: set<Comparable>, e: Comparable, path: seq<string>, g: ConfigGroup)
    requires path != [] && Filled(base, now, done, path, g)
    requires e in Elements(path, g) && ValidPath(FullPath(e))
    ensures Filled(base, now[KeyOf(e) := e], done + {e}, path, g)
  {
    hide KeyOf; hide Elements; hide ValidPath; hide FullPath; hide Filled; hide Index; hide DistinctKeys;
    IndexOne(e);
    GrowBy(base, now, done, {e}, path, g);
    assert now + Index({e}) == now[KeyOf(e) := e];
  }

  lemma GrowByChild(base: ElementMap, now: ElementMap, done: set<Comparable>, path: seq<string>, g: ConfigGroup, k: string)
    requires path != [] && Filled(base, now, done, path, g)
    requires k in g.groups && ValidPath(path + [k]) && ValidIds(g.groups[k])
    ensures Filled(base, now + Flatten(path + [k], g.groups[k]), done + Elements(path + [k], g.groups[k]), path, g)
  {
    hide KeyOf; hide Elements; hide Index; hide ValidPath; hide FullPath; hide ValidIds; hide Filled;
    WholeIsValidPart(path + [k], g.groups[k]);
    FlattenIsIndex(path + [k], g.groups[k]);
    ChildElements(path, g, k);
    GrowBy(base, now, done, Elements(path + [k], g.groups[k]), path, g);
  }

  /** The map that `recurseConfig` and `addToMap` fill. */
  class MapBuilder {
    var result: ElementMap

    constructor ()
      ensures result == map[]
    {
      result := map[];
    }

    /** `addToMap` */
    method AddToMap(e: Comparable) returns (ok: bool)
      modifies this
      ensures ok == ValidId(e.key)
      ensures result == if ok then old(result)[KeyOf(e) := e] else old(result)
    {
      ok := ValidId(e.key);
      if ok {
        result := result[KeyOf(e) := e];
      }
    }

    /** `recurseConfig` */
    method RecurseConfig(path: seq<string>, g: ConfigGroup) returns (ok: bool)
      requires path != [] && ValidPath(path[..|path| - 1])
      modifies this
      ensures ok <==> ValidPath(path) && ValidIds(g)
      ensures ok ==> result == old(result) + Flatten(path, g)
      decreases g
    {
      hide ValidId; hide KeyOf; hide Elements; hide Filled; hide Index;
      ghost var base := result;
      ok := AddToMap(Named(path, Group(g)));
      if !ok {
        return;
      }
      ghost var done := {Named(path, Group(g))};
      StartFilled(base, path, g);

      var todo := g.groups.Keys;
      while todo != {}
        invariant todo <= g.groups.Keys
        invariant Filled(base, result, done, path, g) && Named(path, Group(g)) in done
        invariant forall k | k in g.groups.Keys - todo :: ValidId(k) && ValidIds(g.groups[k]) && Elements(path + [k], g.groups[k]) <= done
      {
        var k :| k in todo;
        assert (path + [k])[..|path|] == path;
        ghost var before := result;
        ok := RecurseConfig(path + [k], g.groups[k]);
        if !ok {
          return;
        }
        assert ValidId((path + [k])[|path|]);
        GrowByChild(base, before, done, path, g, k);
        done := done + Elements(path + [k], g.groups[k]);
        todo := todo - {k};
      }

      ok, done := AddValues(path, g, base, done);
      if !ok {
        return;
      }
      ok, done := AddPolicies(path, g, base, done);
      if !ok {
        return;
      }
      AllDone(base, result, done, path, g);
    }

    /** The loop of `recurseConfig` over the values of the group. */
    method AddValues(path: seq<string>, g: ConfigGroup, ghost base: ElementMap, ghost start: set<Comparable>)
      returns (ok: bool, ghost done: set<Comparable>)
      requires path != [] && ValidPath(path) && Filled(base, result, start, path, g)
      modifies this
      ensures start <= done
      ensures ok <==> forall k | k in g.values.Keys :: ValidId(k)
      ensures ok ==> Filled(base, result, done, path, g)
      ensures ok ==> forall k | k in g.values.Keys :: Comparable(k, path, Value(g.values[k])) in done
    {
      hide ValidId; hide KeyOf; hide Elements; hide Filled;
      done := start;
      var todo := g.values.Keys;
      while todo != {}
        invariant todo <= g.values.Keys && start <= done
        invariant Filled(base, result, done, path, g)
        invariant forall k | k in g.values.Keys - todo :: ValidId(k) && Comparable(k, path, Value(g.values[k])) in done
      {
        var k :| k in todo;
        var e := Comparable(k, path, Value(g.values[k]));
        ghost var before := result;
        ok := AddToMap(e);
        if !ok {
          return;
        }
        MemberIsElement(path, g, ValueKind, k);
        GrowByOne(base, before, done, e, path, g);
        done := done + {e};
        todo := todo - {k};
      }
      ok := true;
    }

    /** The loop of `recurseConfig` over the policies of the group. */
    method AddPolicies(path: seq<string>, g: ConfigGroup, ghost base: ElementMap, ghost start: set<Comparable>)
      returns (ok: bool, ghost done: set<Comparable>)
      requires path != [] && ValidPath(path) && Filled(base, result, start, path, g)
      modifies this
      ensures start <= done
      ensures ok <==> forall k | k in g.policies.Keys :: ValidId(k)
      ensures ok ==> Filled(base, result, done, path, g)
      ensures ok ==> forall k | k in g.policies.Keys :: Comparable(k, path, Policy(g.policies[k])) in done
    {
      hide ValidId; hide KeyOf; hide Elements; hide Filled;
      done := start;
      var todo := g.policies.Keys;
      while todo != {}
        invariant todo <= g.policies.Keys && start <= done
        invariant Filled(base, result, done, path, g)
        invariant forall k | k in g.policies.Keys - todo :: ValidId(k) && Comparable(k, path, Policy(g.policies[k])) in done
      {
        var k :| k in todo;
        var e := Comparable(k, path, Policy(g.policies[k]));
        ghost var before := result;
        ok := AddToMap(e);
        if !ok {
          return;
        }
        MemberIsElement(path, g, PolicyKind, k);
        GrowByOne(base, before, done, e, path, g);
        done := done + {e};
        todo := todo - {k};
      }
      ok := true;
    }
  }

  lemma StartFilled(base: ElementMap, path: seq<string>, g: ConfigGroup)
    requires path != [] && ValidPath(path)
    ensures Filled(base, base[KeyOf(Named(path, Group(g))) := Named(path, Group(g))], {Named(path, Group(g))}, path, g)
  {
    hide KeyOf; hide Elements; hide ValidId;
    var self := Named(path, Group(g));
    RootIsElement(path, g);
    assert FullPath(self) == path;
    assert DistinctKeys({}) && Index({}) == map[] && base + map[] == base;
    GrowByOne(base, base, {}, self, path, g);
    assert {} + {self} == {self};
  }

  lemma AllDone(base: ElementMap, now: ElementMap, done: set<Comparable>, path: seq<string>, g: ConfigGroup)
    requires path != [] && ValidPath(path) && ValidIds(g)
    requires Filled(base, now, done, path, g) && Named(path, Group(g)) in done
    requires forall k | k in g.groups.Keys :: Elements(path + [k], g.groups[k]) <= done
    requires forall k | k in g.values.Keys :: Comparable(k, path, Value(g.values[k])) in done
    requires forall k | k in g.policies.Keys :: Comparable(k, path, Policy(g.policies[k])) in done
    ensures now == base + Flatten(path, g)
  {
    hide KeyOf; hide ValidId; hide ValidIds; hide Index; hide DistinctKeys; hide Elements; hide Named; hide ValidPath; hide FullPath;
    FlattenIsIndex(path, g);
    assert done == Elements(path, g) by {
      forall e | e in Elements(path, g) ensures e in done {
        ElementIsDone(done, path, g, e);
      }
    }
  }

  lemma ElementIsDone(done: set<Comparable>, path: seq<string>, g: ConfigGroup, e: Comparable)
    requires path != [] && e in Elements(path, g) && Named(path, Group(g)) in done
    requires forall k | k in g.groups.Keys :: Elements(path + [k], g.groups[k]) <= done
    requires forall k | k in g.values.Keys :: Comparable(k, path, Value(g.values[k])) in done
    requires forall k | k in g.policies.Keys :: Comparable(k, path, Policy(g.policies[k])) in done
    ensures e in done
  {
    hide Elements; hide Named;
    ElementsCases(path, g, e);
    if e != Named(path, Group(g)) && !exists k | k in g.groups :: e in Elements(path + [k], g.groups[k]) {
      assert e == Comparable(e.key, path, e.item);
    }
  }

  /** `mapConfig` */
  method MapConfigLoop(channelGroup: Option<ConfigGroup>, root: string) returns (r: Option<ElementMap>)
    ensures r == MapConfig(channelGroup, root)
  {
    hide ValidId; hide ValidIds; hide Flatten;
    var builder := new MapBuilder();
    if channelGroup.Some? {
      var ok := builder.RecurseConfig([root], channelGroup.value);
      if !ok {
        return None;
      }
      assert ValidId([root][0]);
      assert map[] + Flatten([root], channelGroup.value) == Flatten([root], channelGroup.value);
    }
    return Some(builder.result);
  }

  /** `recurseConfigMap` */
  method RecurseConfigMap(path: string, m: ElementMap) returns (r: Option<ConfigGroup>)
    ensures r == Rebuild(path, m)
    decreases MaxLength(m.Keys) - |path|
  {
    hide Tagged; hide Child; hide UpgradeOn; hide UpgradeValue; hide UpgradePolicy; hide Upgrade; hide Rebuild;
    if !Present(m, GroupKind, path) {
      AbsentGroup(path, m);
      return None;
    }
    var g := m[Tagged(GroupKind, path)].item.group;
    var groups := g.groups;
    var todo := g.groups.Keys;
    while todo != {}
      invariant todo <= g.groups.Keys == groups.Keys
      invariant forall k | k in g.groups.Keys - todo :: Rebuild(Child(path, k), m) == Some(groups[k])
    {
      var k :| k in todo;
      var updated := RecurseConfigMap(Child(path, k), m);
      if updated.None? {
        AbsentMember(path, m, GroupKind, k);
        return None;
      }
      groups := groups[k := updated.value];
      todo := todo - {k};
    }

    var values := g.values;
    todo := g.values.Keys;
    while todo != {}
      invariant todo <= g.values.Keys == values.Keys
      invariant forall k | k in g.values.Keys - todo ::
                  && Present(m, ValueKind, Child(path, k))
                  && values[k] == m[Tagged(ValueKind, Child(path, k))].item.value
    {
      var k :| k in todo;
      if !Present(m, ValueKind, Child(path, k)) {
        AbsentMember(path, m, ValueKind, k);
        return None;
      }
      values := values[k := m[Tagged(ValueKind, Child(path, k))].item.value];
      todo := todo - {k};
    }

    var policies := g.policies;
    todo := g.policies.Keys;
    while todo != {}
      invariant todo <= g.policies.Keys == policies.Keys
      invariant forall k | k in g.policies.Keys - todo ::
                  && Present(m, PolicyKind, Child(path, k))
                  && policies[k] == m[Tagged(PolicyKind, Child(path, k))].item.policy
    {
      var k :| k in todo;
      if !Present(m, PolicyKind, Child(path, k)) {
        AbsentMember(path, m, PolicyKind, k);
        return None;
      }
      policies := policies[k := m[Tagged(PolicyKind, Child(path, k))].item.policy];
      todo := todo - {k};
    }

    var newGroup := UpgradeLoop(ConfigGroup(g.version, groups, values, policies, g.modPolicy), UpgradeOn(m));
    RebuildFold(path, m);
    RebuildIs(path, m, newGroup);
    return Some(newGroup);
  }

  /** The part of `recurseConfigMap` that fills in the empty mod_policies of one group and of its values and policies. */
  method UpgradeLoop(g: ConfigGroup, on: bool) returns (r: ConfigGroup)
    ensures r.version == g.version && r.groups == g.groups && r.modPolicy == Upgrade(g.modPolicy, on)
    ensures r.values.Keys == g.values.Keys && r.policies.Keys == g.policies.Keys
    ensures forall k | k in g.values :: r.values[k] == UpgradeValue(g.values[k], on)
    ensures forall k | k in g.policies :: r.policies[k] == UpgradePolicy(g.policies[k], on)
  {
    r := g;
    if !on {
      return;
    }
    if r.modPolicy == "" {
      r := r.(modPolicy := UPGRADED_MOD_POLICY);
    }
    var todo := g.values.Keys;
    while todo != {}
      invariant todo <= g.values.Keys == r.values.Keys
      invariant r == g.(modPolicy := Upgrade(g.modPolicy, on), values := r.values)
      invariant forall k | k in g.values :: r.values[k] == if k in todo then g.values[k] else UpgradeValue(g.values[k], on)
    {
      var k :| k in todo;
      if r.values[k].modPolicy == "" {
        r := r.(values := r.values[k := r.values[k].(modPolicy := UPGRADED_MOD_POLICY)]);
      }
      todo := todo - {k};
    }
    todo := g.policies.Keys;
    while todo != {}
      invariant todo <= g.policies.Keys == r.policies.Keys
      invariant r.version == g.version && r.groups == g.groups && r.modPolicy == Upgrade(g.modPolicy, on)
      invariant r.values.Keys == g.values.Keys && forall k | k in g.values :: r.values[k] == UpgradeValue(g.values[k], on)
      invariant forall k | k in g.policies :: r.policies[k] == if k in todo then g.policies[k] else UpgradePolicy(g.policies[k], on)
    {
      var k :| k in todo;
      if r.policies[k].modPolicy == "" {
        r := r.(policies := r.policies[k := r.policies[k].(modPolicy := UPGRADED_MOD_POLICY)]);
      }
      todo := todo - {k};
    }
  }

  lemma AbsentGroup(path: string, m: ElementMap)
    requires !Present(m, GroupKind, path)
    ensures Rebuild(path, m).None?
  {
    hide Tagged; hide Child; hide Present;
  }

  lemma AbsentMember(path: string, m: ElementMap, kind: Kind, k: string)
    requires Present(m, GroupKind, path) && Member(m[Tagged(GroupKind, path)].item.group, kind, k).Some?
    requires if kind == GroupKind then Rebuild(Child(path, k), m).None? else !Present(m, kind, Child(path, k))
    ensures Rebuild(path, m).None?
  {
    hide Tagged; hide Child; hide UpgradeOn; hide UpgradeValue; hide UpgradePolicy; hide Upgrade;
  }

  lemma RebuildIs(path: string, m: ElementMap, r: ConfigGroup)
    requires Rebuild(path, m).Some? && Present(m, GroupKind, path)
    requires var g := m[Tagged(GroupKind, path)].item.group;
             && r.version == g.version && r.modPolicy == Upgrade(g.modPolicy, UpgradeOn(m))
             && r.groups.Keys == g.groups.Keys && r.values.Keys == g.values.Keys && r.policies.Keys == g.policies.Keys
    requires forall k | k in r.groups :: Rebuild(Child(path, k), m) == Some(r.groups[k])
    requires forall k | k in r.values ::
               && Present(m, ValueKind, Child(path, k))
               && r.values[k] == UpgradeValue(m[Tagged(ValueKind, Child(path, k))].item.value, UpgradeOn(m))
    requires forall k | k in r.policies ::
               && Present(m, PolicyKind, Child(path, k))
               && r.policies[k] == UpgradePolicy(m[Tagged(PolicyKind, Child(path, k))].item.policy, UpgradeOn(m))
    ensures Rebuild(path, m) == Some(r)
  {
    hide Tagged; hide Child; hide UpgradeOn; hide UpgradeValue; hide UpgradePolicy; hide Upgrade; hide Rebuild;
    RebuildUnfold(path, m);
    var x := Rebuild(path, m).value;
    assert x.groups == r.groups && x.values == r.values && x.policies == r.policies;
  }

  // ---------------------------------------------------------------------------------------------
  // update.go
  // ---------------------------------------------------------------------------------------------

  /** `verifyReadSet` */
  method VerifyReadSet(configMap: ElementMap, readSet: ElementMap) returns (ok: bool)
    ensures ok == ReadSetCurrent(configMap, readSet)
  {
    var todo := readSet.Keys;
    while todo != {}
      invariant todo <= readSet.Keys
      invariant forall key | key in readSet.Keys - todo ::
                  key in configMap && configMap[key].item.Version() == readSet[key].item.Version()
    {
      var key :| key in todo;
      if key !in configMap || configMap[key].item.Version() != readSet[key].item.Version() {
        return false;
      }
      todo := todo - {key};
    }
    return true;
  }

  /** `computeDeltaSet` */
  method ComputeDeltaSet(readSet: ElementMap, writeSet: ElementMap) returns (delta: ElementMap)
    ensures delta == DeltaSet(readSet, writeSet)
  {
    delta := map[];
    var todo := writeSet.Keys;
    while todo != {}
      invariant todo <= writeSet.Keys
      invariant delta == map key | key in DeltaSet(readSet, writeSet) && key !in todo :: writeSet[key]
    {
      var key :| key in todo;
      if key !in readSet || readSet[key].item.Version() != writeSet[key].item.Version() {
        delta := delta[key := writeSet[key]];
      }
      todo := todo - {key};
    }
  }

  /** `verifyDeltaSet` */
  method VerifyDeltaSet(vi: Validator, delta: ElementMap, signatures: seq<SignedData>) returns (ok: bool)
    ensures ok == DeltaAllowed(vi, delta, signatures)
  {
    hide ValidModPolicy; hide Approved;
    if |delta| == 0 {
      return false;
    }
    var todo := delta.Keys;
    while todo != {}
      invariant todo <= delta.Keys
      invariant forall key | key in delta.Keys - todo :: ChangeAllowed(vi, key, delta[key], signatures)
    {
      var key :| key in todo;
      var value := delta[key];
      if !ValidModPolicy(value.item.ModPolicy()) {
        return false;
      }
      if key !in vi.configMap {
        if value.item.Version() != 0 {
          return false;
        }
      } else {
        var existing := vi.configMap[key];
        if value.item.Version() != existing.item.Version() + 1 || !Approved(vi, existing, signatures) {
          return false;
        }
      }
      todo := todo - {key};
    }
    return true;
  }

  /** `computeUpdateResult` */
  method ComputeUpdateResult(configMap: ElementMap, delta: ElementMap) returns (full: ElementMap)
    ensures full == configMap + delta
  {
    full := map[];
    var todo := configMap.Keys;
    while todo != {}
      invariant todo <= configMap.Keys
      invariant full == map key | key in configMap && key !in todo :: configMap[key]
    {
      var key :| key in todo;
      full := full[key := configMap[key]];
      todo := todo - {key};
    }
    assert full == configMap;
    todo := delta.Keys;
    while todo != {}
      invariant todo <= delta.Keys
      invariant full == configMap + map key | key in delta && key !in todo :: delta[key]
    {
      var key :| key in todo;
      full := full[key := delta[key]];
      todo := todo - {key};
    }
    assert (map key | key in delta && key !in todo :: delta[key]) == delta;
  }

  /** `verifyFullProposedConfig` */
  method VerifyFullProposedConfig(writeSet: ElementMap, full: ElementMap) returns (ok: bool)
    ensures ok == WriteSetCovered(writeSet, full)
  {
    var todo := writeSet.Keys;
    while todo != {}
      invariant todo <= writeSet.Keys
      invariant forall key | key in writeSet.Keys - todo :: key in full
    {
      var key :| key in todo;
      if key !in full {
        return false;
      }
      todo := todo - {key};
    }
    return true;
  }

  /** `authorizeUpdate` and `configMapToConfig`, run one after the other with the loops above. */
  method ProposeRoot(vi: Validator, su: SignedUpdate) returns (r: Result<ConfigGroup, Error>)
    ensures r == ProposedRoot(vi, su)
  {
    hide MapConfig; hide ReadSetCurrent; hide DeltaSet; hide DeltaAllowed; hide WriteSetCovered; hide Rebuild;
    if su.update.None? {
      return Err(BadEnvelope);
    }
    var u := su.update.value;
    if u.channelID != vi.channelID {
      return Err(WrongChannel);
    }
    var readSet := MapConfigLoop(u.readSet, vi.namespace);
    if readSet.None? {
      return Err(BadReadSet);
    }
    var current := VerifyReadSet(vi.configMap, readSet.value);
    if !current {
      return Err(StaleReadSet);
    }
    var writeSet := MapConfigLoop(u.writeSet, vi.namespace);
    if writeSet.None? {
      return Err(BadWriteSet);
    }
    var delta := ComputeDeltaSet(readSet.value, writeSet.value);
    if su.signatures.None? {
      return Err(BadSignatures);
    }
    var allowed := VerifyDeltaSet(vi, delta, su.signatures.value);
    if !allowed {
      return Err(DeltaRejected);
    }
    var full := ComputeUpdateResult(vi.configMap, delta);
    var covered := VerifyFullProposedConfig(writeSet.value, full);
    if !covered {
      return Err(WriteSetNotCovered);
    }
    var root := RecurseConfigMap("/" + vi.namespace, full);
    if root.None? {
      return Err(RebuildFailed);
    }
    return Ok(root.value);
  }
}
