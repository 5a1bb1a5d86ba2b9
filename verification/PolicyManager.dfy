/**
 `ManagerImpl` of `common/policies/policy.go`: the tree of policy managers that mirrors the groups
 of a channel configuration, and the two ways of finding a policy in it.
 */
module PolicyManager {
  import opened Wrappers

  /** `policies` is keyed by paths relative to the manager: a name, or a name below nested groups. */
  datatype Manager<P> = Manager(path: string, policies: map<string, P>, managers: map<string, Manager<P>>)

  /** `ManagerImpl.Manager` */
  function ManagerAt<P>(pm: Manager<P>, path: seq<string>): Option<Manager<P>>
    decreases |path|
  {
    if path == [] then Some(pm)
    else if path[0] in pm.managers then ManagerAt(pm.managers[path[0]], path[1..])
    else None
  }

  /** What `GetPolicy` looks up: an absolute id loses its leading separator, the manager's path and one more character. */
  function RelativeId<P>(pm: Manager<P>, id: string): Option<string> {
    if id == "" then None
    else if id[0] == '/' then
      if 1 + |pm.path| < |id| && id[1..1 + |pm.path|] == pm.path then Some(id[1 + |pm.path| + 1..]) else None
    else Some(id)
  }

  /** `ManagerImpl.GetPolicy`, with `None` for the policy that rejects everything. */
  function GetPolicy<P>(pm: Manager<P>, id: string): Option<P> {
    var rel := RelativeId(pm, id);
    if rel.Some? && rel.value in pm.policies then Some(pm.policies[rel.value]) else None
  }

  // ---------------------------------------------------------------------------------------------
  // Building managers
  // ---------------------------------------------------------------------------------------------

  /** The policies of a group, compiled, and those of the groups in it. */
  datatype PolicyTree<P> = PolicyTree(own: map<string, P>, groups: map<string, PolicyTree<P>>)

  predicate SlashFree(name: string) {
    name != "" && '/' !in name
  }

  /** All names are as configuration names are: not empty and without separators. */
  predicate PlainNames<P>(t: PolicyTree<P>) {
    && (forall n | n in t.own :: SlashFree(n))
    && (forall g | g in t.groups :: SlashFree(g) && PlainNames(t.groups[g]))
  }

  function Nest(group: string, id: string): string {
    group + "/" + id
  }

  /** The first separator of a nested id tells the group. */
  lemma NestInjective(g: string, a: string, h: string, b: string)
    requires SlashFree(g) && SlashFree(h) && Nest(g, a) == Nest(h, b)
    ensures g == h && a == b
  {
    var s, t := Nest(g, a), Nest(h, b);
    assert s[|g|] == '/' && forall i | 0 <= i < |g| :: s[i] == g[i];
    assert t[|h|] == '/' && forall i | 0 <= i < |h| :: t[i] == h[i];
    assert |g| == |h|;
    assert g == s[..|g|] == t[..|h|] == h;
    assert a == s[|g| + 1..] == t[|h| + 1..] == b;
  }

  lemma NestHasSlash(g: string, id: string)
    ensures !SlashFree(Nest(g, id))
  {
    assert Nest(g, id)[|g|] == '/';
  }

  predicate ComesFrom<P>(managers: map<string, Manager<P>>, key: string, g: string, id: string) {
    g in managers && id in managers[g].policies && key == Nest(g, id)
  }

  lemma NestedKeysDistinct<P>(managers: map<string, Manager<P>>)
    requires forall g | g in managers :: SlashFree(g)
    ensures forall g, a, h, b {:trigger Nest(g, a), Nest(h, b)} | g in managers && h in managers && Nest(g, a) == Nest(h, b) :: g == h && a == b
  {
    hide SlashFree; hide Nest;
    forall g, a, h, b | g in managers && h in managers && Nest(g, a) == Nest(h, b) ensures g == h && a == b {
      NestInjective(g, a, h, b);
    }
  }

  datatype Entry = Entry(group: string, id: string) {
    function Key(): string {
      Nest(group, id)
    }
  }

  function Entries<P>(managers: map<string, Manager<P>>): set<Entry> {
    set g, id | g in managers && id in managers[g].policies :: Entry(g, id)
  }

  function EntryWith(entries: set<Entry>, key: string): (e: Entry)
    requires forall e, f | e in entries && f in entries && e.Key() == f.Key() :: e == f
    requires exists e | e in entries :: e.Key() == key
    ensures e in entries && e.Key() == key
  {
    var e :| e in entries && e.Key() == key;
    e
  }

  function ByKey(entries: set<Entry>): (m: map<string, Entry>)
    requires forall e, f | e in entries && f in entries && e.Key() == f.Key() :: e == f
    ensures forall e | e in entries :: e.Key() in m && m[e.Key()] == e
    ensures forall key | key in m :: m[key] in entries && m[key].Key() == key
  {
    map key | key in (set e | e in entries :: e.Key()) :: EntryWith(entries, key)
  }

  /** The policies of the sub-managers, under their nested ids. */
  function Nested<P>(managers: map<string, Manager<P>>): map<string, P>
    requires forall g | g in managers :: SlashFree(g)
  {
    hide SlashFree; hide Nest;
    NestedKeysDistinct(managers);
    var m := ByKey(Entries(managers));
    map key | key in m :: managers[m[key].group].policies[m[key].id]
  }

  lemma NestedExact<P>(managers: map<string, Manager<P>>, key: string)
    requires forall g | g in managers :: SlashFree(g)
    ensures key in Nested(managers) ==> exists g, id :: ComesFrom(managers, key, g, id)
    ensures forall g, id | ComesFrom(managers, key, g, id) :: key in Nested(managers) && Nested(managers)[key] == managers[g].policies[id]
  {
    hide SlashFree; hide Nest; hide ByKey;
    NestedKeysDistinct(managers);
    var m := ByKey(Entries(managers));
    if key in Nested(managers) {
      assert ComesFrom(managers, key, m[key].group, m[key].id);
    }
    forall g, id | ComesFrom(managers, key, g, id) ensures key in Nested(managers) && Nested(managers)[key] == managers[g].policies[id] {
      assert Entry(g, id) in Entries(managers) && Entry(g, id).Key() == key;
    }
  }

  /** What `NewManagerImpl` builds from policies that compile. */
  function NewManager<P>(path: string, t: PolicyTree<P>): Manager<P>
    requires PlainNames(t)
    decreases t
  {
    var managers := map g | g in t.groups :: NewManager(Nest(path, g), t.groups[g]);
    Manager(path, t.own + Nested(managers), managers)
  }

  // ---------------------------------------------------------------------------------------------
  // The index and the tree
  // ---------------------------------------------------------------------------------------------

  /** The policy of the given name in the group at the given path, found by walking the tree. */
  function FindPolicy<P>(t: PolicyTree<P>, groupPath: seq<string>, name: string): Option<P>
    decreases |groupPath|
  {
    if groupPath == [] then
      if name in t.own then Some(t.own[name]) else None
    else if groupPath[0] in t.groups then FindPolicy(t.groups[groupPath[0]], groupPath[1..], name)
    else None
  }

  /** The id of a policy relative to a manager: the names of the groups on the way and its own. */
  function RelativePath(groupPath: seq<string>, name: string): string {
    if groupPath == [] then name else Nest(groupPath[0], RelativePath(groupPath[1..], name))
  }

  predicate AllSlashFree(names: seq<string>) {
    forall i | 0 <= i < |names| :: SlashFree(names[i])
  }

  function Lookup<P>(m: map<string, P>, key: string): Option<P> {
    if key in m then Some(m[key]) else None
  }

  lemma NestedLookup<P>(managers: map<string, Manager<P>>, g: string, id: string)
    requires (forall h | h in managers :: SlashFree(h)) && SlashFree(g)
    ensures Lookup(Nested(managers), Nest(g, id)) == if g in managers then Lookup(managers[g].policies, id) else None
  {
    hide Nest; hide SlashFree; hide Nested;
    var key := Nest(g, id);
    NestedExact(managers, key);
    assert g in managers && id in managers[g].policies ==> ComesFrom(managers, key, g, id);
    if key in Nested(managers) {
      var h, a :| ComesFrom(managers, key, h, a);
      NestInjective(g, id, h, a);
    }
  }

  lemma NestedHoldsOnlyNested<P>(managers: map<string, Manager<P>>, key: string)
    requires (forall h | h in managers :: SlashFree(h)) && SlashFree(key)
    ensures key !in Nested(managers)
  {
    hide Nest; hide SlashFree; hide Nested;
    NestedExact(managers, key);
    if key in Nested(managers) {
      var h, a :| ComesFrom(managers, key, h, a);
      NestHasSlash(h, a);
    }
  }

  /** The flattened index of a manager holds, under each relative path, the policy the tree has there. */
  lemma {:induction false} IndexExact<P>(path: string, t: PolicyTree<P>, groupPath: seq<string>, name: string)
    requires PlainNames(t) && AllSlashFree(groupPath) && SlashFree(name)
    ensures Lookup(NewManager(path, t).policies, RelativePath(groupPath, name)) == FindPolicy(t, groupPath, name)
    decreases |groupPath|
  {
    hide Nest; hide SlashFree; hide Nested;
    var m := NewManager(path, t);
    if groupPath == [] {
      NestedHoldsOnlyNested(m.managers, name);
    } else {
      var g, id := groupPath[0], RelativePath(groupPath[1..], name);
      NestHasSlash(g, id);
      NestedLookup(m.managers, g, id);
      if g in t.groups {
        IndexExact(Nest(path, g), t.groups[g], groupPath[1..], name);
      }
    }
  }

  /** A relative id, asked of the manager of some group, finds the policy that the tree has below that group. */
  lemma {:induction false} ManagerWalk<P>(path: string, t: PolicyTree<P>, scope: seq<string>, groupPath: seq<string>, name: string)
    requires PlainNames(t) && AllSlashFree(scope) && AllSlashFree(groupPath) && SlashFree(name)
    ensures var m := ManagerAt(NewManager(path, t), scope);
            (if m.Some? then GetPolicy(m.value, RelativePath(groupPath, name)) else None) == FindPolicy(t, scope + groupPath, name)
    decreases |scope|
  {
    hide Nested; hide RelativePath;
    if scope == [] {
      IndexExact(path, t, groupPath, name);
      StartsPlain(groupPath, name);
      assert scope + groupPath == groupPath;
    } else {
      assert (scope + groupPath)[1..] == scope[1..] + groupPath;
      if scope[0] in t.groups {
        ManagerWalk(Nest(path, scope[0]), t.groups[scope[0]], scope[1..], groupPath, name);
      }
    }
  }

  /** Absolute ids, ids relative to the root and walking the managers all find the policy that the tree has. */
  lemma LookupsAgree<P>(root: string, t: PolicyTree<P>, groupPath: seq<string>, name: string)
    requires PlainNames(t) && AllSlashFree(groupPath) && SlashFree(name)
    ensures GetPolicy(NewManager(root, t), "/" + root + "/" + RelativePath(groupPath, name)) == FindPolicy(t, groupPath, name)
    ensures GetPolicy(NewManager(root, t), RelativePath(groupPath, name)) == FindPolicy(t, groupPath, name)
    ensures var m := ManagerAt(NewManager(root, t), groupPath);
            (if m.Some? then GetPolicy(m.value, name) else None) == FindPolicy(t, groupPath, name)
  {
    hide FindPolicy; hide PlainNames; hide NewManager;
    var m, rel := NewManager(root, t), RelativePath(groupPath, name);
    IndexExact(root, t, groupPath, name);
    ManagerWalk(root, t, groupPath, [], name);
    assert groupPath + [] == groupPath;
    PathOfNew(root, t);
    var id := "/" + root + "/" + rel;
    assert id[1..1 + |root|] == root && id[1 + |root| + 1..] == rel;
    StartsPlain(groupPath, name);
  }

  /** The id is absolute and goes on, after the path of the manager and one more character, with `rel`. */
  predicate Absolute(id: string, path: string, c: char, rel: string) {
    id == "/" + path + [c] + rel
  }

  /** What `GetPolicy` answers to any id at all. */
  lemma GetPolicyExact<P>(pm: Manager<P>, id: string)
    ensures id == "" ==> GetPolicy(pm, id) == None
    ensures id != "" && id[0] != '/' ==> GetPolicy(pm, id) == Lookup(pm.policies, id)
    ensures forall c, rel | Absolute(id, pm.path, c, rel) :: GetPolicy(pm, id) == Lookup(pm.policies, rel)
    ensures id != "" && id[0] == '/' && (!exists c, rel :: Absolute(id, pm.path, c, rel)) ==> GetPolicy(pm, id) == None
  {
    var n := |pm.path|;
    forall c, rel | Absolute(id, pm.path, c, rel) ensures GetPolicy(pm, id) == Lookup(pm.policies, rel) {
      assert id[0] == '/' && id[1..1 + n] == pm.path && id[1 + n + 1..] == rel;
    }
    if id != "" && id[0] == '/' && 1 + n < |id| && id[1..1 + n] == pm.path {
      assert id == ['/'] + id[1..1 + n] + [id[1 + n]] + id[1 + n + 1..];
      assert Absolute(id, pm.path, id[1 + n], id[1 + n + 1..]);
    }
  }

  /** The path of the manager of a group: the names on the way from the root, with separators. */
  function PathFrom(root: string, scope: seq<string>): string
    decreases |scope|
  {
    if scope == [] then root else PathFrom(root + "/" + scope[0], scope[1..])
  }

  /** The manager of any group knows its own path, and answers absolute ids that go on from there. */
  lemma {:induction false} AbsoluteFromSub<P>(root: string, t: PolicyTree<P>, scope: seq<string>, groupPath: seq<string>, name: string)
    requires PlainNames(t) && AllSlashFree(scope) && AllSlashFree(groupPath) && SlashFree(name)
    requires ManagerAt(NewManager(root, t), scope).Some?
    ensures var m := ManagerAt(NewManager(root, t), scope).value;
            && m.path == PathFrom(root, scope)
            && GetPolicy(m, "/" + PathFrom(root, scope) + "/" + RelativePath(groupPath, name)) == FindPolicy(t, scope + groupPath, name)
    decreases |scope|
  {
    hide Nested; hide RelativePath; hide GetPolicy; hide SlashFree;
    if scope == [] {
      LookupsAgree(root, t, groupPath, name);
      PathOfNew(root, t);
      assert scope + groupPath == groupPath;
    } else {
      assert (scope + groupPath)[1..] == scope[1..] + groupPath;
      AbsoluteFromSub(Nest(root, scope[0]), t.groups[scope[0]], scope[1..], groupPath, name);
    }
  }

  lemma PathOfNew<P>(path: string, t: PolicyTree<P>)
    requires PlainNames(t)
    ensures NewManager(path, t).path == path
  {
    hide Nested; hide PlainNames;
  }

  lemma StartsPlain(groupPath: seq<string>, name: string)
    requires AllSlashFree(groupPath) && SlashFree(name)
    ensures RelativePath(groupPath, name) != "" && RelativePath(groupPath, name)[0] != '/'
  {
    if groupPath != [] {
      assert SlashFree(groupPath[0]);
      assert RelativePath(groupPath, name)[0] == groupPath[0][0];
    }
  }

  // ---------------------------------------------------------------------------------------------
  // The loops of NewManagerImpl
  // ---------------------------------------------------------------------------------------------

  /** The manager of the group, with only part of its policies. */
  function Only<P>(g: string, manager: Manager<P>, part: map<string, P>): map<string, Manager<P>> {
    map[g := manager.(policies := part)]
  }

  lemma NestedAddPolicy<P>(g: string, manager: Manager<P>, part: map<string, P>, id: string, p: P)
    requires SlashFree(g)
    ensures Nested(Only(g, manager, part[id := p])) == Nested(Only(g, manager, part))[Nest(g, id) := p]
  {
    hide SlashFree; hide Nest; hide Nested;
    var old', new' := Only(g, manager, part), Only(g, manager, part[id := p]);
    forall key ensures Lookup(Nested(new'), key) == Lookup(Nested(old')[Nest(g, id) := p], key) {
      NestedExact(old', key);
      NestedExact(new', key);
      assert ComesFrom(new', Nest(g, id), g, id);
      if key in Nested(new') {
        var h, a :| ComesFrom(new', key, h, a);
        assert a == id || ComesFrom(old', key, h, a);
      }
      if key in Nested(old') && key != Nest(g, id) {
        var h, a :| ComesFrom(old', key, h, a);
        assert ComesFrom(new', key, h, a);
      }
    }
    LookupsEqual(Nested(new'), Nested(old')[Nest(g, id) := p]);
  }

  lemma LookupsEqual<P>(m: map<string, P>, n: map<string, P>)
    requires forall key :: Lookup(m, key) == Lookup(n, key)
    ensures m == n
  {
    forall key ensures key in m <==> key in n {
      assert Lookup(m, key) == Lookup(n, key);
    }
    forall key | key in m ensures m[key] == n[key] {
      assert Lookup(m, key) == Lookup(n, key);
    }
  }

  lemma NestedAddGroup<P>(managers: map<string, Manager<P>>, g: string, manager: Manager<P>)
    requires (forall h | h in managers :: SlashFree(h)) && SlashFree(g) && g !in managers
    ensures Nested(managers[g := manager]) == Nested(managers) + Nested(Only(g, manager, manager.policies))
  {
    hide SlashFree; hide Nest; hide Nested;
    var more, one := managers[g := manager], Only(g, manager, manager.policies);
    forall key ensures Lookup(Nested(more), key) == Lookup(Nested(managers) + Nested(one), key) {
      NestedExact(more, key);
      NestedExact(managers, key);
      NestedExact(one, key);
      if key in Nested(more) {
        var h, a :| ComesFrom(more, key, h, a);
        assert ComesFrom(if h == g then one else managers, key, h, a);
      }
      if key in Nested(managers) {
        var h, a :| ComesFrom(managers, key, h, a);
        assert ComesFrom(more, key, h, a);
      }
      if key in Nested(one) {
        var h, a :| ComesFrom(one, key, h, a);
        assert ComesFrom(more, key, h, a);
      }
    }
    LookupsEqual(Nested(more), Nested(managers) + Nested(one));
  }

  lemma OverlayAssociative<P>(a: map<string, P>, b: map<string, P>, c: map<string, P>)
    ensures a + b + c == a + (b + c)
  {
  }

  lemma OverlayUpdate<P>(a: map<string, P>, b: map<string, P>, key: string, p: P)
    ensures (a + b)[key := p] == a + b[key := p]
  {
  }

  /** The inner loop that copies the policies of one sub-manager into the index. */
  method CopyNested<P>(g: string, manager: Manager<P>, start: map<string, P>) returns (policies: map<string, P>)
    requires SlashFree(g)
    ensures policies == start + Nested(Only(g, manager, manager.policies))
  {
    hide SlashFree; hide Nest; hide Nested;
    policies := start;
    var todo := manager.policies.Keys;
    ghost var part: map<string, P> := map[];
    assert Nested(Only(g, manager, map[])) == map[] by { NestedNothing(g, manager); }
    while todo != {}
      invariant todo <= manager.policies.Keys
      invariant part.Keys == manager.policies.Keys - todo && forall id | id in part :: part[id] == manager.policies[id]
      invariant policies == start + Nested(Only(g, manager, part))
    {
      var id :| id in todo;
      OverlayUpdate(start, Nested(Only(g, manager, part)), Nest(g, id), manager.policies[id]);
      policies := policies[Nest(g, id) := manager.policies[id]];
      NestedAddPolicy(g, manager, part, id, manager.policies[id]);
      part := part[id := manager.policies[id]];
      todo := todo - {id};
    }
    assert part == manager.policies;
  }

  lemma NestedNothing<P>(g: string, manager: Manager<P>)
    requires SlashFree(g)
    ensures Nested(Only(g, manager, map[])) == map[]
  {
    hide SlashFree; hide Nest; hide Nested;
    var one := Only(g, manager, map[]);
    forall key ensures key !in Nested(one) {
      NestedExact(one, key);
    }
  }

  /** The policies of a group as configured; `None` stands for one that is nil, of unknown type or does not compile. */
  datatype PolicyConfig<P> = PolicyConfig(policies: map<string, Option<P>>, groups: map<string, PolicyConfig<P>>)

  predicate PlainConfig<P>(c: PolicyConfig<P>) {
    && (forall n | n in c.policies :: SlashFree(n))
    && (forall g | g in c.groups :: SlashFree(g) && PlainConfig(c.groups[g]))
  }

  /** Every policy of the group and of the groups in it compiles. */
  predicate AllPoliciesCompile<P>(c: PolicyConfig<P>) {
    && (forall n | n in c.policies :: c.policies[n].Some?)
    && (forall g | g in c.groups :: AllPoliciesCompile(c.groups[g]))
  }

  function Compiled<P>(c: PolicyConfig<P>): PolicyTree<P>
    requires AllPoliciesCompile(c)
  {
    PolicyTree(map n | n in c.policies :: c.policies[n].value, map g | g in c.groups :: Compiled(c.groups[g]))
  }

  lemma {:induction false} CompiledIsPlain<P>(c: PolicyConfig<P>)
    requires PlainConfig(c) && AllPoliciesCompile(c)
    ensures PlainNames(Compiled(c))
    decreases c
  {
    hide SlashFree;
    forall g | g in c.groups ensures PlainNames(Compiled(c.groups[g])) {
      CompiledIsPlain(c.groups[g]);
    }
  }

  /** The manager is the one built for the group `g`. */
  ghost predicate Built<P>(m: Manager<P>, path: string, c: PolicyConfig<P>, g: string) {
    && g in c.groups && AllPoliciesCompile(c.groups[g]) && PlainNames(Compiled(c.groups[g]))
    && m == NewManager(Nest(path, g), Compiled(c.groups[g]))
  }

  lemma GroupOf<P>(c: PolicyConfig<P>, g: string)
    requires PlainConfig(c) && g in c.groups
    ensures PlainConfig(c.groups[g]) && SlashFree(g)
    ensures !AllPoliciesCompile(c.groups[g]) ==> !AllPoliciesCompile(c)
  {
    hide SlashFree;
  }

  /** The managers of all groups and the compiled policies make up the manager of the compiled tree. */
  lemma Assembled<P>(path: string, c: PolicyConfig<P>, managers: map<string, Manager<P>>)
    requires PlainConfig(c) && managers.Keys == c.groups.Keys && (forall g | g in managers :: Built(managers[g], path, c, g))
    requires forall n | n in c.policies :: c.policies[n].Some?
    ensures AllPoliciesCompile(c) && PlainNames(Compiled(c)) && forall g | g in managers :: SlashFree(g)
    ensures NewManager(path, Compiled(c)) == Manager(path, (map n | n in c.policies :: c.policies[n].value) + Nested(managers), managers)
  {
    hide SlashFree; hide Nest; hide Nested; hide NewManager; hide PlainNames;
    assert AllPoliciesCompile(c);
    CompiledIsPlain(c);
    NewManagerIs(path, Compiled(c), managers);
  }

  /** `NewManagerImpl`: fails exactly when some policy does not compile, else builds the manager of the compiled tree. */
  method NewManagerImpl<P>(path: string, c: PolicyConfig<P>) returns (m: Option<Manager<P>>)
    requires PlainConfig(c)
    ensures m.Some? <==> AllPoliciesCompile(c)
    ensures m.Some? ==> PlainNames(Compiled(c)) && m.value == NewManager(path, Compiled(c))
    decreases c
  {
    hide SlashFree; hide Nest; hide Nested; hide NewManager; hide PlainNames; hide AllPoliciesCompile; hide Compiled; hide PlainConfig;
    var managers: map<string, Manager<P>> := map[];
    var todo := c.groups.Keys;
    while todo != {}
      invariant todo <= c.groups.Keys
      invariant managers.Keys == c.groups.Keys - todo
      invariant forall g | g in managers :: Built(managers[g], path, c, g)
    {
      var g :| g in todo;
      GroupOf(c, g);
      var manager := NewManagerImpl(Nest(path, g), c.groups[g]);
      if manager.None? {
        return None;
      }
      managers := managers[g := manager.value];
      todo := todo - {g};
    }
    var own := CompilePolicies(c);
    if own.None? {
      PolicyFails(c);
      return None;
    }
    Assembled(path, c, managers);
    var policies := CopyAllNested(managers, own.value);
    m := Some(Manager(path, policies, managers));
  }

  lemma PolicyFails<P>(c: PolicyConfig<P>)
    requires exists n | n in c.policies :: c.policies[n].None?
    ensures !AllPoliciesCompile(c)
  {
  }

  /** The loop of `NewManagerImpl` over the policies of the group itself. */
  method CompilePolicies<P>(c: PolicyConfig<P>) returns (own: Option<map<string, P>>)
    ensures own.Some? <==> forall n | n in c.policies :: c.policies[n].Some?
    ensures own.Some? ==> own.value == map n | n in c.policies :: c.policies[n].value
  {
    var compiled: map<string, P> := map[];
    var todo := c.policies.Keys;
    while todo != {}
      invariant todo <= c.policies.Keys
      invariant forall n | n in c.policies.Keys - todo :: c.policies[n].Some?
      invariant compiled == map n | n in c.policies && n !in todo :: c.policies[n].value
    {
      var n :| n in todo;
      if c.policies[n].None? {
        return None;
      }
      compiled := compiled[n := c.policies[n].value];
      todo := todo - {n};
    }
    return Some(compiled);
  }

  lemma NewManagerIs<P>(path: string, t: PolicyTree<P>, managers: map<string, Manager<P>>)
    requires PlainNames(t) && managers.Keys == t.groups.Keys
    requires forall g | g in managers :: managers[g] == NewManager(Nest(path, g), t.groups[g])
    ensures NewManager(path, t) == Manager(path, t.own + Nested(managers), managers)
  {
    hide SlashFree; hide Nested; hide Nest;
    assert managers == map g | g in t.groups :: NewManager(Nest(path, g), t.groups[g]);
  }

  /** The outer loop that copies the policies of all sub-managers into the index. */
  method CopyAllNested<P>(managers: map<string, Manager<P>>, own: map<string, P>) returns (policies: map<string, P>)
    requires forall g | g in managers :: SlashFree(g)
    ensures policies == own + Nested(managers)
  {
    hide SlashFree; hide Nest; hide Nested;
    policies := own;
    var todo := managers.Keys;
    ghost var done: map<string, Manager<P>> := map[];
    assert Nested(done) == map[] by { NestedOfNone<P>(); }
    while todo != {}
      invariant todo <= managers.Keys
      invariant done.Keys == managers.Keys - todo && forall g | g in done :: done[g] == managers[g]
      invariant forall g | g in done :: SlashFree(g)
      invariant policies == own + Nested(done)
    {
      var g :| g in todo;
      policies := CopyNested(g, managers[g], policies);
      NestedAddGroup(done, g, managers[g]);
      OverlayAssociative(own, Nested(done), Nested(Only(g, managers[g], managers[g].policies)));
      done := done[g := managers[g]];
      todo := todo - {g};
    }
    assert done == managers;
  }

  lemma NestedOfNone<P>()
    ensures Nested<P>(map[]) == map[]
  {
    hide Nested;
    forall key ensures key !in Nested<P>(map[]) {
      NestedExact<P>(map[], key);
    }
  }
}
