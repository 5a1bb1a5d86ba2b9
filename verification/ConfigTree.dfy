/**
 Channel configuration trees: the groups, values and policies of a `cb.ConfigGroup`, the paths
 that name them, and the string keys under which `common/configtx` indexes them.
 */
module ConfigTree {
  import opened Wrappers

  datatype ConfigValue = ConfigValue(version: nat, value: Bytes, modPolicy: string)

  datatype PolicyBody = PolicyBody(policyType: int, value: Bytes)

  datatype ConfigPolicy = ConfigPolicy(version: nat, policy: Option<PolicyBody>, modPolicy: string)

  datatype ConfigGroup = ConfigGroup(
    version: nat,
    groups: map<string, ConfigGroup>,
    values: map<string, ConfigValue>,
    policies: map<string, ConfigPolicy>,
    modPolicy: string)

  datatype Kind = GroupKind | ValueKind | PolicyKind

  /** One element of a configuration, of any of the three kinds. */
  datatype Item = Group(group: ConfigGroup) | Value(value: ConfigValue) | Policy(policy: ConfigPolicy) {
    function ItemKind(): Kind {
      match this
      case Group(_) => GroupKind
      case Value(_) => ValueKind
      case Policy(_) => PolicyKind
    }

    function Version(): nat {
      match this
      case Group(g) => g.version
      case Value(v) => v.version
      case Policy(p) => p.version
    }

    function ModPolicy(): string {
      match this
      case Group(g) => g.modPolicy
      case Value(v) => v.modPolicy
      case Policy(p) => p.modPolicy
    }
  }

  /** An element together with its name and the names of the groups above it. */
  datatype Comparable = Comparable(key: string, path: seq<string>, item: Item)

  // ---------------------------------------------------------------------------------------------
  // Names
  // ---------------------------------------------------------------------------------------------

  const MAX_LENGTH: nat := 249

  predicate AllowedChar(c: char) {
    'a' <= c <= 'z' || 'A' <= c <= 'Z' || '0' <= c <= '9' || c == '.' || c == '-'
  }

  /** The names `validateConfigID` accepts. */
  predicate ValidId(id: string) {
    && 0 < |id| <= MAX_LENGTH
    && !(|id| <= 2 && forall i | 0 <= i < |id| :: id[i] == '.')
    && forall i | 0 <= i < |id| :: AllowedChar(id[i])
  }

  predicate ValidPath(path: seq<string>) {
    forall i | 0 <= i < |path| :: ValidId(path[i])
  }

  lemma OneName(name: string)
    requires ValidId(name)
    ensures ValidPath([name]) && ValidPath([])
  {
  }

  /** Every name of a member, at any depth below `g`, is valid. */
  predicate ValidIds(g: ConfigGroup) {
    && (forall k | k in g.groups :: ValidId(k) && ValidIds(g.groups[k]))
    && (forall k | k in g.values :: ValidId(k))
    && (forall k | k in g.policies :: ValidId(k))
  }

  // ---------------------------------------------------------------------------------------------
  // Keys
  // ---------------------------------------------------------------------------------------------

  function Prefix(kind: Kind): string {
    match kind
    case GroupKind => "[Group]  "
    case ValueKind => "[Value]  "
    case PolicyKind => "[Policy] "
  }

  function Child(path: string, k: string): (s: string)
    ensures |s| == |path| + 1 + |k|
  {
    path + "/" + k
  }

  /** The names of a path, each preceded by a separator. */
  function PathString(path: seq<string>): string {
    if path == [] then "" else Child(PathString(path[..|path| - 1]), path[|path| - 1])
  }

  function Tagged(kind: Kind, path: string): (s: string)
    ensures |path| < |s|
  {
    Prefix(kind) + path
  }

  function Key(kind: Kind, path: seq<string>): string {
    Tagged(kind, PathString(path))
  }

  function FullPath(e: Comparable): seq<string> {
    e.path + [e.key]
  }

  function KeyOf(e: Comparable): string {
    Key(e.item.ItemKind(), FullPath(e))
  }

  lemma PathStringSnoc(path: seq<string>, k: string)
    ensures PathString(path + [k]) == Child(PathString(path), k)
  {
    assert (path + [k])[..|path|] == path;
  }

  /** The last separator of a string splits it in only one way. */
  lemma ChildInjective(a: string, x: string, b: string, y: string)
    requires ValidId(x) && ValidId(y)
    requires Child(a, x) == Child(b, y)
    ensures a == b && x == y
  {
    var s, t := Child(a, x), Child(b, y);
    assert s[|a|] == '/' && forall i | |a| < i < |s| :: s[i] == x[i - |a| - 1];
    assert t[|b|] == '/' && forall i | |b| < i < |t| :: t[i] == y[i - |b| - 1];
    assert |a| == |b|;
    assert a == s[..|a|] == t[..|b|] == b;
    assert x == s[|a| + 1..] == t[|b| + 1..] == y;
  }

  lemma {:induction false} PathStringInjective(p: seq<string>, q: seq<string>)
    requires ValidPath(p) && ValidPath(q)
    requires PathString(p) == PathString(q)
    ensures p == q
    decreases |p|
  {
    hide Child; hide ValidId;
    if p != [] && q != [] {
      var p', x := p[..|p| - 1], p[|p| - 1];
      var q', y := q[..|q| - 1], q[|q| - 1];
      ChildInjective(PathString(p'), x, PathString(q'), y);
      PathStringInjective(p', q');
      assert p == p' + [x] && q == q' + [y];
    }
  }

  lemma TaggedInjective(kind: Kind, s: string, kind': Kind, t: string)
    requires Tagged(kind, s) == Tagged(kind', t)
    ensures kind == kind' && s == t
  {
    var n := |Prefix(GroupKind)|;
    var u, v := Tagged(kind, s), Tagged(kind', t);
    assert u[1] == Prefix(kind)[1] && v[1] == Prefix(kind')[1];
    assert s == u[n..] && t == v[n..];
  }

  /** A key names one kind and one path: the three prefixes differ and valid names hold no separator. */
  lemma KeyInjective(kind: Kind, p: seq<string>, kind': Kind, q: seq<string>)
    requires ValidPath(p) && ValidPath(q)
    requires Key(kind, p) == Key(kind', q)
    ensures kind == kind' && p == q
  {
    TaggedInjective(kind, PathString(p), kind', PathString(q));
    PathStringInjective(p, q);
  }

  // ---------------------------------------------------------------------------------------------
  // Walking a tree
  // ---------------------------------------------------------------------------------------------

  /** The member `k` of the given kind directly inside `g`. */
  function Member(g: ConfigGroup, kind: Kind, k: string): Option<Item> {
    match kind
    case GroupKind => if k in g.groups then Some(Group(g.groups[k])) else None
    case ValueKind => if k in g.values then Some(Value(g.values[k])) else None
    case PolicyKind => if k in g.policies then Some(Policy(g.policies[k])) else None
  }

  /** The group reached from `g` by following `rel`. */
  function GroupAt(g: ConfigGroup, rel: seq<string>): Option<ConfigGroup> {
    if rel == [] then Some(g)
    else
      var parent := GroupAt(g, rel[..|rel| - 1]);
      var k := rel[|rel| - 1];
      if parent.Some? && k in parent.value.groups then Some(parent.value.groups[k]) else None
  }

  /** The element of the given kind reached from `g` by following `rel`; the empty path is `g` itself. */
  function ElementAt(g: ConfigGroup, kind: Kind, rel: seq<string>): Option<Item> {
    if rel == [] then
      if kind == GroupKind then Some(Group(g)) else None
    else
      var parent := GroupAt(g, rel[..|rel| - 1]);
      if parent.Some? then Member(parent.value, kind, rel[|rel| - 1]) else None
  }

  lemma GroupElement(g: ConfigGroup, rel: seq<string>)
    ensures ElementAt(g, GroupKind, rel).Some? <==> GroupAt(g, rel).Some?
    ensures GroupAt(g, rel).Some? ==> ElementAt(g, GroupKind, rel) == Some(Group(GroupAt(g, rel).value))
  {
  }

  lemma {:induction false} GroupAtCons(g: ConfigGroup, k: string, rest: seq<string>)
    ensures GroupAt(g, [k] + rest) == if k in g.groups then GroupAt(g.groups[k], rest) else None
    decreases |rest|
  {
    var rel := [k] + rest;
    if rest == [] {
      assert rel[..|rel| - 1] == [];
    } else {
      assert rel[..|rel| - 1] == [k] + rest[..|rest| - 1];
      GroupAtCons(g, k, rest[..|rest| - 1]);
    }
  }

  lemma ElementAtCons(g: ConfigGroup, kind: Kind, k: string, rest: seq<string>)
    requires rest != []
    ensures ElementAt(g, kind, [k] + rest) == if k in g.groups then ElementAt(g.groups[k], kind, rest) else None
  {
    var rel := [k] + rest;
    assert rel[..|rel| - 1] == [k] + rest[..|rest| - 1];
    GroupAtCons(g, k, rest[..|rest| - 1]);
  }
}
