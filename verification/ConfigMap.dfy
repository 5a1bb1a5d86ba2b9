/**
 `common/configtx/configmap.go`: flattening a configuration tree into a map from keys to elements,
 and rebuilding a tree from such a map.
 */
module ConfigMap {
  import opened Wrappers
  import opened ConfigTree

  type ElementMap = map<string, Comparable>

  // ---------------------------------------------------------------------------------------------
  // The elements of a tree
  // ---------------------------------------------------------------------------------------------

  function Named(path: seq<string>, item: Item): Comparable
    requires path != []
  {
    Comparable(path[|path| - 1], path[..|path| - 1], item)
  }

  /** All elements of the tree `g`, whose own full path is `path`. */
  function Elements(path: seq<string>, g: ConfigGroup): set<Comparable>
    requires path != []
    decreases g, 1
  {
    {Named(path, Group(g))} + ElementsBelow(path, g) + ValueElements(path, g) + PolicyElements(path, g)
  }

  function ElementsBelow(path: seq<string>, g: ConfigGroup): set<Comparable>
    requires path != []
    decreases g, 0
  {
    set k, e | k in g.groups && e in Elements(path + [k], g.groups[k]) :: e
  }

  function ValueElements(path: seq<string>, g: ConfigGroup): set<Comparable> {
    set k | k in g.values :: Comparable(k, path, Value(g.values[k]))
  }

  function PolicyElements(path: seq<string>, g: ConfigGroup): set<Comparable> {
    set k | k in g.policies :: Comparable(k, path, Policy(g.policies[k]))
  }

  lemma BelowCase(path: seq<string>, g: ConfigGroup, e: Comparable)
    requires path != [] && e in ElementsBelow(path, g)
    ensures exists k | k in g.groups :: e in Elements(path + [k], g.groups[k])
  {
    hide Elements;
  }

  lemma MemberCase(path: seq<string>, g: ConfigGroup, e: Comparable)
    requires e in ValueElements(path, g) || e in PolicyElements(path, g)
    ensures !e.item.Group? && e.path == path && Member(g, e.item.ItemKind(), e.key) == Some(e.item)
  {
  }

  /** An element of a tree is its root, an element of a child group, or a value or policy of the root. */
  lemma ElementsCases(path: seq<string>, g: ConfigGroup, e: Comparable)
    requires path != [] && e in Elements(path, g)
    ensures || e == Named(path, Group(g))
            || (exists k | k in g.groups :: e in Elements(path + [k], g.groups[k]))
            || (!e.item.Group? && e.path == path && Member(g, e.item.ItemKind(), e.key) == Some(e.item))
  {
    if e in ElementsBelow(path, g) {
      BelowCase(path, g, e);
    } else if e != Named(path, Group(g)) {
      MemberCase(path, g, e);
    }
  }

  lemma {:induction false} ElementsSound(path: seq<string>, g: ConfigGroup, e: Comparable) returns (rel: seq<string>)
    requires path != [] && e in Elements(path, g)
    ensures FullPath(e) == path + rel
    ensures ElementAt(g, e.item.ItemKind(), rel) == Some(e.item)
    decreases g
  {
    hide Elements; hide ElementAt; hide Member; hide Named;
    ElementsCases(path, g, e);
    if e == Named(path, Group(g)) {
      rel := [];
      RootSound(path, g);
    } else if k :| k in g.groups && e in Elements(path + [k], g.groups[k]) {
      var rest := ElementsSound(path + [k], g.groups[k], e);
      rel := [k] + rest;
      assert path + rel == path + [k] + rest;
      ElementInChild(g, e.item.ItemKind(), k, rest);
    } else {
      rel := [e.key];
      MemberSound(g, e.item.ItemKind(), e.key);
    }
  }

  lemma RootSound(path: seq<string>, g: ConfigGroup)
    requires path != []
    ensures FullPath(Named(path, Group(g))) == path + []
    ensures Named(path, Group(g)).item == Group(g) && ElementAt(g, GroupKind, []) == Some(Group(g))
  {
  }

  lemma MemberSound(g: ConfigGroup, kind: Kind, k: string)
    ensures ElementAt(g, kind, [k]) == Member(g, kind, k)
  {
    assert [k][..0] == [];
  }

  lemma ElementInChild(g: ConfigGroup, kind: Kind, k: string, rest: seq<string>)
    requires k in g.groups && ElementAt(g.groups[k], kind, rest).Some?
    ensures ElementAt(g, kind, [k] + rest) == ElementAt(g.groups[k], kind, rest)
  {
    if rest == [] {
      assert ([k] + rest)[..|rest|] == [];
    } else {
      hide ElementAt;
      ElementAtCons(g, kind, k, rest);
    }
  }

  lemma RootIsElement(path: seq<string>, g: ConfigGroup)
    requires path != []
    ensures Named(path, Group(g)) in Elements(path, g)
  {
  }

  lemma ChildElements(path: seq<string>, g: ConfigGroup, k: string)
    requires path != [] && k in g.groups
    ensures Elements(path + [k], g.groups[k]) <= Elements(path, g)
  {
  }

  lemma MemberIsElement(path: seq<string>, g: ConfigGroup, kind: Kind, k: string)
    requires path != [] && Member(g, kind, k).Some?
    ensures Named(path + [k], Member(g, kind, k).value) in Elements(path, g)
  {
    if kind == GroupKind {
      assert Named(path + [k], Member(g, kind, k).value) in Elements(path + [k], g.groups[k]);
    }
  }

  lemma {:induction false} ElementsComplete(path: seq<string>, g: ConfigGroup, kind: Kind, rel: seq<string>)
    requires path != [] && ElementAt(g, kind, rel).Some?
    ensures Named(path + rel, ElementAt(g, kind, rel).value) in Elements(path, g)
    decreases g
  {
    hide Elements;
    if rel == [] {
      assert path + rel == path;
      RootIsElement(path, g);
    } else if |rel| == 1 {
      MemberIsElement(path, g, kind, rel[0]);
      assert path + rel == path + [rel[0]];
      assert rel[..|rel| - 1] == [];
    } else {
      var k, rest := rel[0], rel[1..];
      assert rel == [k] + rest;
      ElementAtCons(g, kind, k, rest);
      hide ElementAt;
      ElementsComplete(path + [k], g.groups[k], kind, rest);
      ChildElements(path, g, k);
      assert path + rel == path + [k] + rest;
    }
  }

  /** In a tree with valid names, the way to any element and everything below it has valid names. */
  lemma {:induction false} GroupAtValid(g: ConfigGroup, rel: seq<string>)
    requires ValidIds(g) && GroupAt(g, rel).Some?
    ensures ValidPath(rel) && ValidIds(GroupAt(g, rel).value)
    decreases |rel|
  {
    if rel != [] {
      GroupAtValid(g, rel[..|rel| - 1]);
    }
  }

  lemma ElementAtValid(g: ConfigGroup, kind: Kind, rel: seq<string>)
    requires ValidIds(g) && ElementAt(g, kind, rel).Some?
    ensures ValidPath(rel)
  {
    if rel != [] {
      GroupAtValid(g, rel[..|rel| - 1]);
    }
  }

  lemma ElementsValid(path: seq<string>, g: ConfigGroup, e: Comparable)
    requires path != [] && ValidPath(path) && ValidIds(g) && e in Elements(path, g)
    ensures ValidPath(FullPath(e))
  {
    hide Elements; hide ElementAt; hide ValidIds; hide ValidId; hide FullPath;
    var rel := ElementsSound(path, g, e);
    ElementAtValid(g, e.item.ItemKind(), rel);
  }

  lemma FullPathInjective(e: Comparable, f: Comparable)
    requires FullPath(e) == FullPath(f) && e.item == f.item
    ensures e == f
  {
    assert e.key == FullPath(e)[|e.path|] && f.key == FullPath(f)[|f.path|];
    assert e.path == FullPath(e)[..|e.path|] && f.path == FullPath(f)[..|f.path|];
  }

  /** No two elements of a tree, reached through valid names, share a key. */
  lemma KeysAreDistinct(path: seq<string>, g: ConfigGroup, e: Comparable, f: Comparable)
    requires path != [] && e in Elements(path, g) && f in Elements(path, g)
    requires ValidPath(FullPath(e)) && ValidPath(FullPath(f))
    requires KeyOf(e) == KeyOf(f)
    ensures e == f
  {
    hide Elements; hide ElementAt; hide ValidIds; hide ValidId; hide ValidPath; hide Key; hide FullPath;
    KeyInjective(e.item.ItemKind(), FullPath(e), f.item.ItemKind(), FullPath(f));
    var d := ElementsSound(path, g, e);
    var d' := ElementsSound(path, g, f);
    assert d == (path + d)[|path|..] == (path + d')[|path|..] == d';
    FullPathInjective(e, f);
  }

  // ---------------------------------------------------------------------------------------------
  // Flattening
  // ---------------------------------------------------------------------------------------------

  ghost predicate DistinctKeys(elements: set<Comparable>) {
    forall e, f {:trigger KeyOf(e), KeyOf(f)} | e in elements && f in elements && KeyOf(e) == KeyOf(f) :: e == f
  }

  function KeysOf(elements: set<Comparable>): set<string> {
    set e | e in elements :: KeyOf(e)
  }

  /** The element with the given key. */
  function ElementWith(elements: set<Comparable>, key: string): (e: Comparable)
    requires DistinctKeys(elements) && key in KeysOf(elements)
    ensures e in elements && KeyOf(e) == key
  {
    hide KeyOf;
    var e :| e in elements && KeyOf(e) == key;
    e
  }

  /** The elements of a set, each under its key. */
  function Index(elements: set<Comparable>): (m: ElementMap)
    requires DistinctKeys(elements)
    ensures forall e {:trigger KeyOf(e)} | e in elements :: KeyOf(e) in m && m[KeyOf(e)] == e
    ensures forall key {:trigger m[key]} | key in m :: m[key] in elements && KeyOf(m[key]) == key
  {
    hide KeyOf;
    map key | key in KeysOf(elements) :: ElementWith(elements, key)
  }

  /** A set of elements of the tree that valid names lead to. */
  ghost predicate ValidPart(part: set<Comparable>, path: seq<string>, g: ConfigGroup)
    requires path != []
  {
    part <= Elements(path, g) && forall e | e in part :: ValidPath(FullPath(e))
  }

  lemma PartKeysDistinct(part: set<Comparable>, path: seq<string>, g: ConfigGroup)
    requires path != [] && ValidPart(part, path, g)
    ensures DistinctKeys(part)
  {
    hide Elements; hide KeyOf; hide ValidPath; hide FullPath;
    forall e, f | e in part && f in part && KeyOf(e) == KeyOf(f) ensures e == f {
      KeysAreDistinct(path, g, e, f);
    }
  }

  lemma WholeIsValidPart(path: seq<string>, g: ConfigGroup)
    requires path != [] && ValidPath(path) && ValidIds(g)
    ensures ValidPart(Elements(path, g), path, g)
  {
    hide Elements; hide ValidPath; hide FullPath; hide ValidIds;
    forall e | e in Elements(path, g) ensures ValidPath(FullPath(e)) {
      ElementsValid(path, g, e);
    }
  }

  lemma WholeKeysDistinct(path: seq<string>, g: ConfigGroup)
    requires path != [] && ValidPath(path) && ValidIds(g)
    ensures DistinctKeys(Elements(path, g))
  {
    hide Elements; hide DistinctKeys; hide ValidPart; hide ValidPath; hide ValidIds;
    WholeIsValidPart(path, g);
    PartKeysDistinct(Elements(path, g), path, g);
  }

  /** The key stands for a place at or below `path`. */
  ghost predicate IsPlace(key: string, path: seq<string>) {
    exists kind, rel :: ValidPath(rel) && key == Key(kind, path + rel)
  }

  /** What the map should hold for an element of the given kind at the given place, if there is one. */
  predicate HoldsAt(m: ElementMap, path: seq<string>, kind: Kind, rel: seq<string>, item: Option<Item>)
    requires path != []
  {
    var key := Key(kind, path + rel);
    && (key in m <==> item.Some?)
    && (item.Some? ==> m[key] == Named(path + rel, item.value))
  }

  /** The map holds exactly the elements of the tree, each under the key of its own place. */
  ghost predicate Flattens(m: ElementMap, path: seq<string>, g: ConfigGroup)
    requires path != []
  {
    && (forall key {:trigger IsPlace(key, path)} | key in m :: IsPlace(key, path))
    && (forall kind, rel {:trigger ElementAt(g, kind, rel)} | ValidPath(rel) :: HoldsAt(m, path, kind, rel, ElementAt(g, kind, rel)))
  }

  lemma FlattenedAt(path: seq<string>, g: ConfigGroup, kind: Kind, rel: seq<string>)
    requires path != [] && ValidPath(path) && ValidIds(g) && ValidPath(rel) && DistinctKeys(Elements(path, g))
    ensures HoldsAt(Index(Elements(path, g)), path, kind, rel, ElementAt(g, kind, rel))
  {
    hide Elements; hide ValidIds; hide ValidId; hide Key; hide Index; hide DistinctKeys;
    var key, m := Key(kind, path + rel), Index(Elements(path, g));
    if ElementAt(g, kind, rel).Some? {
      var e := Named(path + rel, ElementAt(g, kind, rel).value);
      ElementsComplete(path, g, kind, rel);
      assert FullPath(e) == path + rel && KeyOf(e) == key;
    }
    if key in m {
      var e := m[key];
      ElementsValid(path, g, e);
      KeyInjective(kind, path + rel, e.item.ItemKind(), FullPath(e));
      var d := ElementsSound(path, g, e);
      assert d == (path + d)[|path|..] == (path + rel)[|path|..] == rel;
    }
  }

  lemma IndexFlattens(path: seq<string>, g: ConfigGroup)
    requires path != [] && ValidPath(path) && ValidIds(g)
    ensures DistinctKeys(Elements(path, g)) && Flattens(Index(Elements(path, g)), path, g)
  {
    hide Elements; hide ValidIds; hide Key; hide Index; hide DistinctKeys; hide ValidPath; hide ElementAt; hide HoldsAt; hide FullPath;
    WholeKeysDistinct(path, g);
    var m := Index(Elements(path, g));
    forall key | key in m ensures IsPlace(key, path) {
      var rel := ElementsSound(path, g, m[key]);
      ElementAtValid(g, m[key].item.ItemKind(), rel);
    }
    forall kind, rel | ValidPath(rel) ensures HoldsAt(m, path, kind, rel, ElementAt(g, kind, rel)) {
      FlattenedAt(path, g, kind, rel);
    }
  }

  lemma FlattensUnique(m: ElementMap, n: ElementMap, path: seq<string>, g: ConfigGroup)
    requires path != [] && Flattens(m, path, g) && Flattens(n, path, g)
    ensures m == n
  {
    hide Key; hide ValidPath; hide ElementAt; hide Named;
    forall key | key in m || key in n ensures key in m && key in n && m[key] == n[key] {
      assert IsPlace(key, path);
      var kind, rel :| ValidPath(rel) && key == Key(kind, path + rel);
      assert HoldsAt(m, path, kind, rel, ElementAt(g, kind, rel));
    }
  }

  /** The map `mapConfig` builds for a tree with valid names. */
  ghost function Flatten(path: seq<string>, g: ConfigGroup): (m: ElementMap)
    requires path != [] && ValidPath(path) && ValidIds(g)
    ensures Flattens(m, path, g)
  {
    IndexFlattens(path, g);
    var m :| Flattens(m, path, g);
    m
  }

  lemma FlattenIsIndex(path: seq<string>, g: ConfigGroup)
    requires path != [] && ValidPath(path) && ValidIds(g)
    ensures DistinctKeys(Elements(path, g)) && Flatten(path, g) == Index(Elements(path, g))
  {
    hide Elements; hide ValidIds; hide ValidPath; hide Index; hide DistinctKeys; hide Flattens; hide Flatten;
    IndexFlattens(path, g);
    FlattensUnique(Flatten(path, g), Index(Elements(path, g)), path, g);
  }

  /** The flattened map holds exactly the elements of the tree, each under the key of its own path. */
  lemma FlattenExact(path: seq<string>, g: ConfigGroup, kind: Kind, rel: seq<string>)
    requires path != [] && ValidPath(path) && ValidIds(g) && ValidPath(rel)
    ensures Key(kind, path + rel) in Flatten(path, g) <==> ElementAt(g, kind, rel).Some?
    ensures ElementAt(g, kind, rel).Some? ==>
              Flatten(path, g)[Key(kind, path + rel)] == Named(path + rel, ElementAt(g, kind, rel).value)
  {
    hide ValidIds; hide ValidId; hide Key; hide ElementAt; hide Flatten; hide Named;
    assert HoldsAt(Flatten(path, g), path, kind, rel, ElementAt(g, kind, rel));
  }

  /** Every key of the flattened map stands for the place of an element. */
  lemma FlattenPlace(ns: string, g: ConfigGroup, key: string) returns (kind: Kind, rel: seq<string>)
    requires ValidPath([ns]) && ValidIds(g) && key in Flatten([ns], g)
    ensures ValidPath(rel) && key == Key(kind, [ns] + rel) && ElementAt(g, kind, rel).Some?
  {
    hide ValidIds; hide ValidId; hide Index; hide Key; hide ElementAt; hide Elements; hide FullPath; hide Flatten;
    FlattenIsIndex([ns], g);
    var e := Flatten([ns], g)[key];
    kind := e.item.ItemKind();
    rel := ElementsSound([ns], g, e);
    ElementAtValid(g, kind, rel);
  }

  /** `mapConfig`: `None` stands for the error on an illegal name, an absent tree gives the empty map. */
  ghost function MapConfig(channelGroup: Option<ConfigGroup>, root: string): Option<ElementMap> {
    match channelGroup
    case None => Some(map[])
    case Some(g) => if ValidId(root) && ValidIds(g) then Some(Flatten([root], g)) else None
  }

  // ---------------------------------------------------------------------------------------------
  // Rebuilding
  // ---------------------------------------------------------------------------------------------

  const UPGRADED_MOD_POLICY: string := "Admins"

  /** The configuration declares orderer capabilities, so empty mod_policies are to be filled in. */
  predicate UpgradeOn(m: ElementMap) {
    "[Value]  /Channel/Orderer/Capabilities" in m
  }

  function Upgrade(modPolicy: string, on: bool): string {
    if on && modPolicy == "" then UPGRADED_MOD_POLICY else modPolicy
  }

  function UpgradeValue(v: ConfigValue, on: bool): ConfigValue {
    v.(modPolicy := Upgrade(v.modPolicy, on))
  }

  function UpgradePolicy(p: ConfigPolicy, on: bool): ConfigPolicy {
    p.(modPolicy := Upgrade(p.modPolicy, on))
  }

  ghost function MaxLength(keys: set<string>): (n: nat)
    ensures forall k | k in keys :: |k| <= n
  {
    if keys == {} then 0
    else
      var k :| k in keys;
      var n := MaxLength(keys - {k});
      if |k| <= n then n else |k|
  }

  /** The map holds an element of the given kind under the given path. */
  predicate Present(m: ElementMap, kind: Kind, path: string) {
    Tagged(kind, path) in m && m[Tagged(kind, path)].item.ItemKind() == kind
  }

  predicate AllPresent(m: ElementMap, kind: Kind, path: string, names: set<string>) {
    forall k | k in names :: Present(m, kind, Child(path, k))
  }

  /**
   `recurseConfigMap`: the tree rooted at the group with the given path, or `None` where the source
   reports a missing entry or an entry of the wrong kind. Paths grow along the recursion and a path
   longer than every key is missing, so this ends for any finite map.
   */
  function Rebuild(path: string, m: ElementMap): Option<ConfigGroup>
    decreases MaxLength(m.Keys) - |path|
  {
    hide Tagged; hide Child; hide UpgradeOn; hide UpgradeValue; hide UpgradePolicy; hide Upgrade;
    if !Present(m, GroupKind, path) then None
    else
      var g := m[Tagged(GroupKind, path)].item.group;
      if && (forall k | k in g.groups :: Rebuild(Child(path, k), m).Some?)
         && AllPresent(m, ValueKind, path, g.values.Keys)
         && AllPresent(m, PolicyKind, path, g.policies.Keys)
      then
        Some(ConfigGroup(
               g.version,
               map k | k in g.groups :: Rebuild(Child(path, k), m).value,
               map k | k in g.values :: UpgradeValue(m[Tagged(ValueKind, Child(path, k))].item.value, UpgradeOn(m)),
               map k | k in g.policies :: UpgradePolicy(m[Tagged(PolicyKind, Child(path, k))].item.policy, UpgradeOn(m)),
               Upgrade(g.modPolicy, UpgradeOn(m))))
      else None
  }

  function ConfigMapToConfig(m: ElementMap, root: string): Option<ConfigGroup> {
    Rebuild("/" + root, m)
  }

  // ---------------------------------------------------------------------------------------------
  // What a rebuilt tree holds
  // ---------------------------------------------------------------------------------------------

  /** What an element holds itself, leaving out its version, its mod_policy and its members' content. */
  datatype Content =
    | GroupContent(groups: set<string>, values: set<string>, policies: set<string>)
    | ValueContent(bytes: Bytes)
    | PolicyContent(body: Option<PolicyBody>)

  function ContentOf(item: Item): Content {
    match item
    case Group(g) => GroupContent(g.groups.Keys, g.values.Keys, g.policies.Keys)
    case Value(v) => ValueContent(v.value)
    case Policy(p) => PolicyContent(p.policy)
  }

  /** `x` is `y` but for its mod_policy, which is upgraded when `on` holds, and for its members' content. */
  predicate Upgraded(x: Item, y: Item, on: bool) {
    && x.ItemKind() == y.ItemKind()
    && x.Version() == y.Version()
    && ContentOf(x) == ContentOf(y)
    && x.ModPolicy() == Upgrade(y.ModPolicy(), on)
  }

  /** The group at the root of a rebuilt tree, next to the map's entry it was built from. */
  lemma RebuildUnfold(path: string, m: ElementMap)
    requires Rebuild(path, m).Some?
    ensures Present(m, GroupKind, path)
    ensures var r, g := Rebuild(path, m).value, m[Tagged(GroupKind, path)].item.group;
            && Upgraded(Group(r), Group(g), UpgradeOn(m))
            && (forall k | k in r.groups :: Rebuild(Child(path, k), m) == Some(r.groups[k]))
            && (forall k | k in r.values ::
                  && Present(m, ValueKind, Child(path, k))
                  && r.values[k] == UpgradeValue(m[Tagged(ValueKind, Child(path, k))].item.value, UpgradeOn(m)))
            && (forall k | k in r.policies ::
                  && Present(m, PolicyKind, Child(path, k))
                  && r.policies[k] == UpgradePolicy(m[Tagged(PolicyKind, Child(path, k))].item.policy, UpgradeOn(m)))
  {
    hide Tagged; hide Child; hide UpgradeOn; hide UpgradeValue; hide UpgradePolicy; hide Upgrade;
  }

  /** Each group of a rebuilt tree is itself the rebuilding of its path. */
  lemma {:induction false} RebuiltGroup(m: ElementMap, path: seq<string>, rel: seq<string>)
    requires Rebuild(PathString(path), m).Some?
    requires GroupAt(Rebuild(PathString(path), m).value, rel).Some?
    ensures Rebuild(PathString(path + rel), m) == GroupAt(Rebuild(PathString(path), m).value, rel)
    decreases |rel|
  {
    hide Rebuild; hide PathString;
    if rel == [] {
      assert path + rel == path;
    } else {
      hide Upgraded; hide Present;
      var front, k := rel[..|rel| - 1], rel[|rel| - 1];
      RebuiltGroup(m, path, front);
      RebuildUnfold(PathString(path + front), m);
      PathStringSnoc(path + front, k);
      assert path + rel == path + front + [k];
    }
  }

  lemma RebuiltMember(m: ElementMap, path: string, kind: Kind, k: string)
    requires Rebuild(path, m).Some? && Member(Rebuild(path, m).value, kind, k).Some?
    ensures Present(m, kind, Child(path, k))
    ensures Upgraded(Member(Rebuild(path, m).value, kind, k).value, m[Tagged(kind, Child(path, k))].item, UpgradeOn(m))
  {
    hide Rebuild; hide Tagged; hide Child; hide UpgradeOn; hide Upgrade;
    RebuildUnfold(path, m);
    if kind == GroupKind {
      RebuildUnfold(Child(path, k), m);
    }
  }

  /** Each element of a rebuilt tree is the map's element for its path, upgraded. */
  lemma RebuiltElement(m: ElementMap, path: seq<string>, kind: Kind, rel: seq<string>)
    requires Rebuild(PathString(path), m).Some?
    requires ElementAt(Rebuild(PathString(path), m).value, kind, rel).Some?
    ensures Key(kind, path + rel) in m
    ensures Upgraded(ElementAt(Rebuild(PathString(path), m).value, kind, rel).value,
                     m[Key(kind, path + rel)].item, UpgradeOn(m))
  {
    hide Rebuild; hide Tagged; hide Child; hide UpgradeOn; hide Upgraded; hide PathString; hide GroupAt;
    if rel == [] {
      assert path + rel == path;
      RebuildUnfold(PathString(path), m);
    } else {
      var front, k := rel[..|rel| - 1], rel[|rel| - 1];
      RebuiltGroup(m, path, front);
      RebuiltMember(m, PathString(path + front), kind, k);
      PathStringSnoc(path + front, k);
      assert path + rel == path + front + [k];
    }
  }

  // ---------------------------------------------------------------------------------------------
  // When rebuilding succeeds
  // ---------------------------------------------------------------------------------------------

  /** Every member the group lists has a valid name and an entry in the map. */
  ghost predicate MembersIn(m: ElementMap, path: seq<string>, g: ConfigGroup) {
    forall kind, k {:trigger Member(g, kind, k)} | Member(g, kind, k).Some? ::
      ValidId(k) && Key(kind, path + [k]) in m
  }

  ghost predicate ClosedAt(m: ElementMap, key: string)
    requires key in m
  {
    && key == KeyOf(m[key])
    && ValidPath(FullPath(m[key]))
    && (m[key].item.Group? ==> MembersIn(m, FullPath(m[key]), m[key].item.group))
  }

  /** Every element sits under its own key, and every member a group lists has an entry. */
  ghost predicate Closed(m: ElementMap) {
    forall key {:trigger ClosedAt(m, key)} | key in m :: ClosedAt(m, key)
  }

  lemma ClosedLookup(m: ElementMap, kind: Kind, path: seq<string>)
    requires Closed(m) && ValidPath(path) && Key(kind, path) in m
    ensures m[Key(kind, path)].item.ItemKind() == kind
    ensures FullPath(m[Key(kind, path)]) == path
    ensures kind == GroupKind ==> MembersIn(m, path, m[Key(kind, path)].item.group)
  {
    hide Key; hide ValidPath; hide FullPath; hide MembersIn;
    var e := m[Key(kind, path)];
    assert ClosedAt(m, Key(kind, path));
    KeyInjective(kind, path, e.item.ItemKind(), FullPath(e));
  }

  lemma ClosedMember(m: ElementMap, path: seq<string>, kind: Kind, k: string)
    requires Closed(m) && ValidPath(path) && Key(GroupKind, path) in m
    requires m[Key(GroupKind, path)].item.Group? && Member(m[Key(GroupKind, path)].item.group, kind, k).Some?
    ensures ValidPath(path + [k]) && Key(kind, path + [k]) in m
    ensures Present(m, kind, Child(PathString(path), k))
  {
    hide Tagged; hide Child; hide ValidId; hide PathString; hide Closed; hide FullPath;
    ClosedLookup(m, GroupKind, path);
    ClosedLookup(m, kind, path + [k]);
    PathStringSnoc(path, k);
  }

  lemma {:induction false} RebuildSucceeds(m: ElementMap, path: seq<string>)
    requires Closed(m) && ValidPath(path) && Key(GroupKind, path) in m
    ensures Rebuild(PathString(path), m).Some?
    decreases MaxLength(m.Keys) - |PathString(path)|
  {
    hide Tagged; hide ValidId; hide PathString; hide Closed; hide ValidPath; hide FullPath; hide MembersIn;
    ClosedLookup(m, GroupKind, path);
    var g := m[Key(GroupKind, path)].item.group;
    forall k | k in g.groups ensures Rebuild(Child(PathString(path), k), m).Some? {
      assert Member(g, GroupKind, k).Some?;
      ClosedMember(m, path, GroupKind, k);
      PathStringSnoc(path, k);
      RebuildSucceeds(m, path + [k]);
    }
    forall k | k in g.values ensures Present(m, ValueKind, Child(PathString(path), k)) {
      assert Member(g, ValueKind, k).Some?;
      ClosedMember(m, path, ValueKind, k);
    }
    forall k | k in g.policies ensures Present(m, PolicyKind, Child(PathString(path), k)) {
      assert Member(g, PolicyKind, k).Some?;
      ClosedMember(m, path, PolicyKind, k);
    }
  }

  lemma FlattenMember(path: seq<string>, g: ConfigGroup, rel: seq<string>, kind: Kind, k: string)
    requires path != [] && ValidPath(path) && ValidIds(g) && ValidPath(rel)
    requires GroupAt(g, rel).Some? && Member(GroupAt(g, rel).value, kind, k).Some?
    ensures ValidId(k) && Key(kind, path + rel + [k]) in Flatten(path, g)
  {
    hide GroupAt; hide ValidId; hide ValidIds; hide Key; hide Flatten;
    assert (rel + [k])[..|rel|] == rel;
    ElementAtValid(g, kind, rel + [k]);
    assert ValidId((rel + [k])[|rel|]);
    FlattenExact(path, g, kind, rel + [k]);
    assert path + (rel + [k]) == path + rel + [k];
  }

  lemma FlattenClosed(path: seq<string>, g: ConfigGroup)
    requires path != [] && ValidPath(path) && ValidIds(g)
    ensures Closed(Flatten(path, g))
  {
    hide GroupAt; hide ElementAt; hide ValidId; hide ValidIds; hide Key; hide Index; hide Elements; hide Member; hide FullPath; hide Flatten;
    var m := Flatten(path, g);
    FlattenIsIndex(path, g);
    forall key | key in m ensures ClosedAt(m, key) {
      var e := m[key];
      ElementsValid(path, g, e);
      var rel := ElementsSound(path, g, e);
      if e.item.Group? {
        GroupElement(g, rel);
        forall kind, k | Member(e.item.group, kind, k).Some?
          ensures ValidId(k) && Key(kind, FullPath(e) + [k]) in m
        {
          ElementAtValid(g, GroupKind, rel);
          FlattenMember(path, g, rel, kind, k);
        }
      }
    }
  }

  /** A rebuilt tree has valid names, so it can be flattened again. */
  lemma {:induction false} RebuiltIsValid(m: ElementMap, path: seq<string>)
    requires Closed(m) && ValidPath(path) && Rebuild(PathString(path), m).Some?
    ensures ValidIds(Rebuild(PathString(path), m).value)
    decreases Rebuild(PathString(path), m).value
  {
    hide Rebuild; hide Tagged; hide Child; hide UpgradeOn; hide ValidId; hide PathString; hide Closed; hide FullPath; hide ValidPath;
    RebuildUnfold(PathString(path), m);
    ClosedLookup(m, GroupKind, path);
    var g := m[Key(GroupKind, path)].item.group;
    var r := Rebuild(PathString(path), m).value;
    assert forall k | k in r.groups :: Member(g, GroupKind, k).Some?;
    assert forall k | k in r.values :: Member(g, ValueKind, k).Some?;
    assert forall k | k in r.policies :: Member(g, PolicyKind, k).Some?;
    forall k | k in r.groups ensures ValidIds(r.groups[k]) {
      ClosedMember(m, path, GroupKind, k);
      PathStringSnoc(path, k);
      RebuiltIsValid(m, path + [k]);
    }
  }

  // ---------------------------------------------------------------------------------------------
  // The round trip
  // ---------------------------------------------------------------------------------------------

  /** The tree `g` with every empty mod_policy filled in when `on` holds. */
  function UpgradeTree(g: ConfigGroup, on: bool): ConfigGroup {
    ConfigGroup(
      g.version,
      map k | k in g.groups :: UpgradeTree(g.groups[k], on),
      map k | k in g.values :: UpgradeValue(g.values[k], on),
      map k | k in g.policies :: UpgradePolicy(g.policies[k], on),
      Upgrade(g.modPolicy, on))
  }

  lemma {:induction false} UpgradeTreeIdempotent(g: ConfigGroup, on: bool)
    ensures UpgradeTree(UpgradeTree(g, on), on) == UpgradeTree(g, on)
  {
    var h := UpgradeTree(g, on);
    var hh := UpgradeTree(h, on);
    forall k | k in g.groups ensures hh.groups[k] == h.groups[k] {
      UpgradeTreeIdempotent(g.groups[k], on);
    }
    assert hh.groups == h.groups && hh.values == h.values && hh.policies == h.policies;
  }

  /** Every element of the tree `g` is in `m` under its key; `m` may hold others. */
  predicate Holds(m: ElementMap, path: seq<string>, g: ConfigGroup)
    requires path != []
  {
    forall e | e in Elements(path, g) :: KeyOf(e) in m && m[KeyOf(e)] == e
  }

  lemma HeldMember(m: ElementMap, path: seq<string>, g: ConfigGroup, kind: Kind, k: string)
    requires path != [] && Holds(m, path, g) && Member(g, kind, k).Some?
    ensures Present(m, kind, Child(PathString(path), k))
    ensures m[Tagged(kind, Child(PathString(path), k))].item == Member(g, kind, k).value
  {
    hide Tagged; hide Child; hide PathString; hide Elements;
    MemberIsElement(path, g, kind, k);
    PathStringSnoc(path, k);
  }

  lemma {:induction false} RebuildHeldTree(m: ElementMap, path: seq<string>, g: ConfigGroup)
    requires path != [] && Holds(m, path, g)
    ensures Rebuild(PathString(path), m) == Some(UpgradeTree(g, UpgradeOn(m)))
    decreases g
  {
    hide Rebuild; hide Tagged; hide Child; hide PathString; hide Elements; hide UpgradeTree;
    hide UpgradeOn; hide UpgradeValue; hide UpgradePolicy; hide Upgrade;
    var p := PathString(path);
    HeldRoot(m, path, g);
    forall k | k in g.groups ensures Rebuild(Child(p, k), m) == Some(UpgradeTree(g.groups[k], UpgradeOn(m))) {
      PathStringSnoc(path, k);
      ChildElements(path, g, k);
      RebuildHeldTree(m, path + [k], g.groups[k]);
    }
    forall kind, k | Member(g, kind, k).Some?
      ensures Present(m, kind, Child(p, k)) && m[Tagged(kind, Child(p, k))].item == Member(g, kind, k).value
    {
      HeldMember(m, path, g, kind, k);
    }
    assert forall k | k in g.values :: Member(g, ValueKind, k).Some?;
    assert forall k | k in g.policies :: Member(g, PolicyKind, k).Some?;
    RebuildFold(p, m);
    RebuildUnfold(p, m);
    UpgradeTreeUnique(g, UpgradeOn(m), Rebuild(p, m).value);
  }

  lemma UpgradeTreeUnique(g: ConfigGroup, on: bool, r: ConfigGroup)
    requires Upgraded(Group(r), Group(g), on)
    requires forall k | k in g.groups :: r.groups[k] == UpgradeTree(g.groups[k], on)
    requires forall k | k in g.values :: r.values[k] == UpgradeValue(g.values[k], on)
    requires forall k | k in g.policies :: r.policies[k] == UpgradePolicy(g.policies[k], on)
    ensures r == UpgradeTree(g, on)
  {
    hide UpgradeValue; hide UpgradePolicy; hide Upgrade;
    var u := UpgradeTree(g, on);
    assert r.groups == u.groups && r.values == u.values && r.policies == u.policies;
  }

  lemma HeldRoot(m: ElementMap, path: seq<string>, g: ConfigGroup)
    requires path != [] && Holds(m, path, g)
    ensures Present(m, GroupKind, PathString(path))
    ensures m[Tagged(GroupKind, PathString(path))].item == Group(g)
  {
    hide Tagged; hide PathString; hide Elements;
    RootIsElement(path, g);
    assert FullPath(Named(path, Group(g))) == path;
  }

  lemma RebuildFold(path: string, m: ElementMap)
    requires Present(m, GroupKind, path)
    requires var g := m[Tagged(GroupKind, path)].item.group;
             && (forall k | k in g.groups :: Rebuild(Child(path, k), m).Some?)
             && (forall k | k in g.values :: Present(m, ValueKind, Child(path, k)))
             && (forall k | k in g.policies :: Present(m, PolicyKind, Child(path, k)))
    ensures Rebuild(path, m).Some?
  {
    hide Tagged; hide Child; hide UpgradeOn; hide UpgradeValue; hide UpgradePolicy; hide Upgrade;
  }

  lemma RootPath(root: string)
    ensures PathString([root]) == "/" + root
  {
    PathStringSnoc([], root);
  }

  /** Rebuilding a flattened tree gives the tree back, with empty mod_policies upgraded if they are to be. */
  lemma RoundTrip(root: string, g: ConfigGroup)
    requires ValidId(root) && ValidIds(g)
    ensures MapConfig(Some(g), root).Some?
    ensures var m := MapConfig(Some(g), root).value;
            ConfigMapToConfig(m, root) == Some(UpgradeTree(g, UpgradeOn(m)))
  {
    hide Rebuild; hide UpgradeTree; hide ValidIds; hide ValidId; hide UpgradeOn; hide Elements; hide KeyOf; hide PathString; hide Index;
    FlattenIsIndex([root], g);
    RebuildHeldTree(Flatten([root], g), [root], g);
    RootPath(root);
  }
}
