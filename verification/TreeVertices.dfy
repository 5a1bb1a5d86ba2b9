/**
 The objects of `common/graph`: vertices that point to their descendants, the breadth-first
 iterator, and the loop of `permute`, which clones and edits trees of vertices.
 */
module TreeVertices {
  import opened Wrappers
  import opened Choose
  import opened Permutations

  // ---------------------------------------------------------------------------------------------
  // The vertices still to be visited
  // ---------------------------------------------------------------------------------------------

  ghost predicate CoversRest(t: Tree, queue: seq<Tree>, done: set<string>) {
    forall x | x in InnerIds(t) && x !in done :: exists i | 0 <= i < |queue| :: x in InnerIds(queue[i])
  }

  /** The queue of a breadth-first walk: disjoint sub-trees of `t` that hold all inner vertices not yet done. */
  ghost predicate IsQueue(t: Tree, queue: seq<Tree>, done: set<string>) {
    && UniqueIds(t)
    && (forall i | 0 <= i < |queue| :: Frontier(t, queue[i], done) && UniqueIds(queue[i]) && Ids(queue[i]) !! done)
    && (forall i, j | 0 <= i < j < |queue| :: Ids(queue[i]) !! Ids(queue[j]))
    && CoversRest(t, queue, done)
  }

  function DoneAfter(v: Tree, done: set<string>): set<string> {
    if v.children == [] then done else done + {v.id}
  }

  lemma QueueStart(t: Tree)
    requires UniqueIds(t)
    ensures IsQueue(t, [t], {})
  {
    assert forall x | x in InnerIds(t) :: x in InnerIds([t][0]);
  }

  lemma QueueCovered(t: Tree, queue: seq<Tree>, done: set<string>)
    requires queue != [] && CoversRest(t, queue, done)
    ensures CoversRest(t, queue[1..] + queue[0].children, DoneAfter(queue[0], done))
  {
    var v, rest := queue[0], queue[1..];
    var next := rest + v.children;
    forall x | x in InnerIds(t) && x !in DoneAfter(v, done) ensures exists i | 0 <= i < |next| :: x in InnerIds(next[i]) {
      var i :| 0 <= i < |queue| && x in InnerIds(queue[i]);
      if i > 0 {
        assert next[i - 1] == queue[i];
      } else {
        var c :| c in v.children && x in InnerIds(c);
        var k :| 0 <= k < |v.children| && v.children[k] == c;
        assert next[|rest| + k] == c;
      }
    }
  }

  lemma SelfId(t: Tree)
    ensures t.id in Ids(t)
  {
  }

  lemma QueueStep(t: Tree, queue: seq<Tree>, done: set<string>)
    requires queue != [] && IsQueue(t, queue, done)
    ensures IsQueue(t, queue[1..] + queue[0].children, DoneAfter(queue[0], done))
  {
    hide CoversRest; hide Frontier; hide Ids;
    var v, rest, more := queue[0], queue[1..], DoneAfter(queue[0], done);
    var next := rest + v.children;
    QueueCovered(t, queue, done);
    forall k | 0 <= k < |v.children| ensures Ids(v.children[k]) <= Ids(v) {
      ChildIds(v, k);
    }
    SelfId(v);
    assert forall i | 0 < i < |queue| :: Ids(v) !! Ids(queue[i]);
    forall i | 0 <= i < |next|
      ensures Frontier(t, next[i], more) && UniqueIds(next[i]) && Ids(next[i]) !! more
    {
      FrontierGrows(t, v, done, more);
      if i < |rest| {
        assert next[i] == queue[i + 1] && v.id !in Ids(queue[i + 1]);
        FrontierGrows(t, queue[i + 1], done, more);
      } else {
        assert next[i] == v.children[i - |rest|] && v.id !in Ids(next[i]);
        FrontierChild(t, v, more, i - |rest|);
      }
    }
    forall i, j | 0 <= i < j < |next| ensures Ids(next[i]) !! Ids(next[j]) {
      if j < |rest| {
        assert next[i] == queue[i + 1] && next[j] == queue[j + 1];
      } else if i < |rest| {
        assert next[i] == queue[i + 1] && next[j] == v.children[j - |rest|];
      } else {
        assert next[i] == v.children[i - |rest|] && next[j] == v.children[j - |rest|];
      }
    }
  }

  lemma QueueReady(t: Tree, queue: seq<Tree>, done: set<string>)
    requires queue != [] && IsQueue(t, queue, done) && queue[0].children != []
    ensures Ready(t, queue[0], done)
  {
  }

  lemma QueueDone(t: Tree, done: set<string>)
    requires IsQueue(t, [], done)
    ensures InnerIds(t) <= done
  {
  }

  function Size(t: Tree): nat
    decreases t, 1
  {
    1 + Sizes(t.children)
  }

  function Sizes(ts: seq<Tree>): nat
    decreases ts, 0
  {
    if ts == [] then 0 else Size(ts[0]) + Sizes(ts[1..])
  }

  lemma {:induction false} SizesConcat(a: seq<Tree>, b: seq<Tree>)
    ensures Sizes(a + b) == Sizes(a) + Sizes(b)
    decreases |a|
  {
    if a == [] {
      assert a + b == b;
    } else {
      assert (a + b)[1..] == a[1..] + b;
      SizesConcat(a[1..], b);
    }
  }

  // ---------------------------------------------------------------------------------------------
  // Vertices
  // ---------------------------------------------------------------------------------------------

  /** The vertices stand for the given trees and are made up of vertices in `region`. */
  ghost predicate Forest(vs: seq<TreeVertex>, values: seq<Perm>, region: set<TreeVertex>)
    reads region
  {
    && |vs| == |values|
    && forall i | 0 <= i < |vs| :: vs[i] in region && vs[i].repr <= region && vs[i].Valid() && vs[i].value == values[i]
  }

  /** The vertices share nothing, with each other or inside. */
  ghost predicate Apart(vs: seq<TreeVertex>, region: set<TreeVertex>)
    reads region
  {
    && (forall i | 0 <= i < |vs| :: vs[i] in region && vs[i].repr <= region && vs[i].Valid() && vs[i].Separate())
    && forall i, j | 0 <= i < j < |vs| :: vs[i].repr !! vs[j].repr
  }

  /** `TreeVertex`; the ghost fields hold the tree it stands for and the vertices that make it up. */
  class TreeVertex {
    const id: string
    const data: int
    const threshold: nat
    var descendants: seq<TreeVertex>
    ghost var value: Perm
    ghost var repr: set<TreeVertex>

    ghost predicate Valid()
      reads this, repr
      decreases repr
    {
      && this in repr
      && value.id == id && value.data == data && |value.kids| == |descendants|
      && forall i | 0 <= i < |descendants| ::
           && descendants[i] in repr && descendants[i].repr <= repr && this !in descendants[i].repr
           && descendants[i].value == value.kids[i]
           && descendants[i].Valid()
    }

    /** No two descendants share a vertex. */
    ghost predicate Separate()
      requires Valid()
      reads this, repr
      decreases repr
    {
      && (forall i, j | 0 <= i < j < |descendants| :: descendants[i].repr !! descendants[j].repr)
      && forall i | 0 <= i < |descendants| :: descendants[i].Separate()
    }

    constructor (id: string, data: int, threshold: nat, descendants: seq<TreeVertex>, ghost values: seq<Perm>, ghost region: set<TreeVertex>)
      requires Forest(descendants, values, region)
      ensures Valid() && repr == {this} + region
      ensures this.id == id && this.data == data && this.threshold == threshold && this.descendants == descendants
      ensures value == Perm(id, data, values)
      ensures Apart(descendants, region) ==> Separate()
    {
      this.id, this.data, this.threshold, this.descendants := id, data, threshold, descendants;
      value := Perm(id, data, values);
      repr := {this} + region;
    }

    lemma Descendant(i: nat)
      requires Valid() && i < |descendants|
      ensures descendants[i].Valid() && descendants[i].repr < repr && this !in descendants[i].repr
      ensures descendants[i].value == value.kids[i]
    {
    }

    lemma OwnValue()
      requires Valid()
      ensures value == Perm(id, data, value.kids) && |value.kids| == |descendants|
    {
    }

    /** `Clone` */
    method Clone() returns (copy: TreeVertex)
      requires Valid()
      ensures copy.Valid() && copy.Separate() && fresh(copy.repr) && copy.value == value
      ensures forall v | v in copy.repr :: v.threshold == 0
      decreases repr
    {
      hide TreeVertex.Valid; hide TreeVertex.Separate;
      hide Forest; hide Apart;
      OwnValue();
      var copies: seq<TreeVertex> := [];
      ghost var region: set<TreeVertex> := {};
      NoVertices();
      for i := 0 to |descendants|
        invariant Forest(copies, value.kids[..i], region) && Apart(copies, region) && fresh(region)
        invariant forall v | v in region :: v.threshold == 0
      {
        Descendant(i);
        var d := descendants[i].Clone();
        AddVertex(copies, value.kids[..i], region, d);
        assert value.kids[..i + 1] == value.kids[..i] + [d.value];
        copies := copies + [d];
        region := region + d.repr;
      }
      assert value.kids[..|descendants|] == value.kids;
      copy := new TreeVertex(id, data, 0, copies, value.kids, region);
    }

    /** `replace`: hangs the given vertices below the vertex with the given id. */
    method ReplaceAt(id: string, kids: seq<TreeVertex>, ghost values: seq<Perm>, ghost region: set<TreeVertex>)
      requires Valid() && Separate() && Forest(kids, values, region) && region !! repr
      modifies repr
      ensures Valid() && value == Replace(old(value), id, values) && repr <= old(repr) + region
      ensures Forest(kids, values, region)
      decreases repr
    {
      hide TreeVertex.Valid; hide TreeVertex.Separate; hide Forest; hide Pending; hide Replace;
      OwnValue();
      InOwnRepr(this);
      if this.id == id {
        descendants := kids;
        value := value.(kids := values);
        repr := {this} + region;
        MakesValid(this, values, region);
        ReplacedRoot(old(value), values);
        return;
      }
      DescendantsPending();
      ghost var ds, before, inside := descendants, value.kids, repr - {this};
      ghost var after: seq<Perm> := [];
      ghost var done := region;
      assert inside - done == inside;
      assert Forest(ds[..0], after, done) by { NoneDone(ds, done); }
      for i := 0 to |descendants|
        invariant descendants == ds && value == old(value) && repr == old(repr) && inside == repr - {this}
        invariant this !in done && region <= done <= inside + region
        invariant Forest(kids, values, region)
        invariant Forest(ds[..i], after, done) && |after| == i
        invariant forall j | 0 <= j < i :: after[j] == Replace(before[j], id, values)
        invariant Pending(ds, before, i, inside - done)
      {
        PendingNext(ds, before, i, inside - done);
        ghost var inner := ds[i].repr;
        descendants[i].ReplaceAt(id, kids, values, region);
        OneMoreDone(ds, i, after, done, inner);
        after := after + [ds[i].value];
        assert inside - done - inner == inside - (done + inner);
        done := done + inner;
      }
      value := value.(kids := after);
      repr := {this} + done;
      assert ds[..|ds|] == ds;
      MakesValid(this, after, done);
      ReplacedKids(old(value), id, values, after);
    }

    /** `Find`: the first vertex with the given id, depth first. */
    method FindVertex(id: string) returns (r: TreeVertex?)
      requires Valid()
      ensures (r != null) == Exists(value, id)
      ensures r != null ==> r in repr && r.value == Find(value, id).value
      decreases repr
    {
      OwnValue();
      if this.id == id {
        return this;
      }
      for i := 0 to |descendants|
        invariant FindAny(value.kids, id) == FindAny(value.kids[i..], id)
      {
        Descendant(i);
        assert value.kids[i..][1..] == value.kids[i + 1..];
        var u := descendants[i].FindVertex(id);
        if u != null {
          return u;
        }
      }
      return null;
    }

    lemma DescendantsPending()
      requires Valid() && Separate()
      ensures Pending(descendants, value.kids, 0, repr - {this})
    {
    }
  }

  lemma ReplacedRoot(p: Perm, values: seq<Perm>)
    ensures p.(kids := values) == Replace(p, p.id, values)
  {
  }

  lemma ReplacedKids(p: Perm, id: string, values: seq<Perm>, after: seq<Perm>)
    requires p.id != id && |after| == |p.kids|
    requires forall j | 0 <= j < |after| :: after[j] == Replace(p.kids[j], id, values)
    ensures p.(kids := after) == Replace(p, id, values)
  {
    assert Replace(p, id, values).kids == after;
  }

  /** The vertices from `i` on stand for their trees, share nothing, and are made up of vertices in `region`. */
  ghost predicate Pending(vs: seq<TreeVertex>, values: seq<Perm>, i: nat, region: set<TreeVertex>)
    reads region
  {
    && |values| == |vs| && i <= |vs|
    && (forall j | i <= j < |vs| ::
          vs[j] in region && vs[j].repr <= region && vs[j].Valid() && vs[j].Separate() && vs[j].value == values[j])
    && forall j, k | i <= j < k < |vs| :: vs[j].repr !! vs[k].repr
  }

  lemma PendingNext(vs: seq<TreeVertex>, values: seq<Perm>, i: nat, region: set<TreeVertex>)
    requires Pending(vs, values, i, region) && i < |vs|
    ensures vs[i] in region && vs[i].repr <= region && vs[i].Valid() && vs[i].Separate() && vs[i].value == values[i]
    ensures Pending(vs, values, i + 1, region - vs[i].repr)
  {
    hide TreeVertex.Separate;
    assert forall j | 0 <= j < |vs| && vs[j].Valid() :: vs[j] in vs[j].repr;
  }

  lemma NoneDone(vs: seq<TreeVertex>, region: set<TreeVertex>)
    ensures Forest(vs[..0], [], region)
  {
  }

  lemma OneMoreDone(vs: seq<TreeVertex>, i: nat, values: seq<Perm>, done: set<TreeVertex>, inner: set<TreeVertex>)
    requires i < |vs| && Forest(vs[..i], values, done)
    requires vs[i].Valid() && vs[i].repr <= done + inner
    ensures Forest(vs[..i + 1], values + [vs[i].value], done + inner)
  {
    assert vs[i] in vs[i].repr;
    hide TreeVertex.Valid;
    assert vs[..i + 1] == vs[..i] + [vs[i]];
  }

  lemma MakesValid(v: TreeVertex, values: seq<Perm>, region: set<TreeVertex>)
    requires Forest(v.descendants, values, region) && v !in region
    requires v.value == Perm(v.id, v.data, values) && v.repr == {v} + region
    ensures v.Valid()
  {
  }

  lemma NoVertices()
    ensures Forest([], [], {}) && Apart([], {})
  {
  }

  lemma AddVertex(vs: seq<TreeVertex>, values: seq<Perm>, region: set<TreeVertex>, v: TreeVertex)
    requires Forest(vs, values, region) && Apart(vs, region)
    requires v.Valid() && v.Separate() && v.repr !! region
    ensures Forest(vs + [v], values + [v.value], region + v.repr) && Apart(vs + [v], region + v.repr)
  {
    assert v in v.repr;
    hide TreeVertex.Valid; hide TreeVertex.Separate;
    var all := vs + [v];
    assert all[|vs|] == v && forall i | 0 <= i < |vs| :: all[i] == vs[i];
  }

  // ---------------------------------------------------------------------------------------------
  // Permuting
  // ---------------------------------------------------------------------------------------------

  /** The vertex, with everything below it, holds the tree. */
  ghost predicate Represents(v: TreeVertex, t: Tree)
    reads v, v.repr
    decreases t
  {
    && v.Valid()
    && v.id == t.id && v.data == t.data && v.threshold == t.threshold && |v.descendants| == |t.children|
    && forall i | 0 <= i < |t.children| :: Represents(v.descendants[i], t.children[i])
  }

  lemma {:induction false} RepresentsWhole(v: TreeVertex, t: Tree)
    requires Represents(v, t)
    ensures v.Valid() && v.value == Whole(t)
    decreases t
  {
    forall i | 0 <= i < |t.children| ensures v.value.kids[i] == Whole(t.children[i]) {
      RepresentsWhole(v.descendants[i], t.children[i]);
    }
    assert v.value.kids == Wholes(t.children);
  }

  /** `bfsIterator` */
  class BfsIterator {
    var arr: seq<TreeVertex>

    constructor (v: TreeVertex)
      ensures arr == [v]
    {
      arr := [v];
    }

    /** `Next` */
    method Next() returns (v: TreeVertex?)
      modifies this
      ensures old(arr) == [] ==> v == null && arr == []
      ensures old(arr) != [] ==> v == old(arr)[0] && arr == old(arr)[1..] + old(arr)[0].descendants
    {
      if |arr| == 0 {
        return null;
      }
      v := arr[0];
      arr := arr[1..];
      ghost var rest := arr;
      for i := 0 to |v.descendants|
        invariant arr == rest + v.descendants[..i]
      {
        arr := arr + [v.descendants[i]];
      }
    }
  }

  lemma RepresentedDescendant(v: TreeVertex, t: Tree, i: nat)
    requires Represents(v, t) && i < |t.children|
    ensures |v.descendants| == |t.children|
    ensures v.descendants[i] in v.repr && v.descendants[i].repr <= v.repr
    ensures v.descendants[i].Valid() && v.descendants[i].value == Whole(t.children[i])
  {
    RepresentsWhole(v.descendants[i], t.children[i]);
  }

  lemma AddToForest(vs: seq<TreeVertex>, values: seq<Perm>, region: set<TreeVertex>, v: TreeVertex)
    requires Forest(vs, values, region) && v in region && v.repr <= region && v.Valid()
    ensures Forest(vs + [v], values + [v.value], region)
  {
    hide TreeVertex.Valid;
  }

  lemma EmptyForest(region: set<TreeVertex>)
    ensures Forest([], [], region)
  {
  }

  /** `chooseKoutOfN` */
  method ChooseAll(n: nat, k: nat) returns (choices: seq<seq<nat>>)
    ensures choices == ChooseKoutOfN(n, k)
  {
    hide Combinations;
    var acc := new OrderedSet();
    ChooseInto(n, k, 0, [], acc);
    choices := acc.elements;
  }

  ghost predicate Forests(sels: seq<seq<TreeVertex>>, values: seq<seq<Perm>>, region: set<TreeVertex>)
    reads region
  {
    |sels| == |values| && forall i | 0 <= i < |sels| :: Forest(sels[i], values[i], region)
  }

  lemma ForestAt(vs: seq<TreeVertex>, values: seq<Perm>, region: set<TreeVertex>, i: nat)
    requires Forest(vs, values, region) && i < |vs|
    ensures |values| == |vs| && vs[i] in region && vs[i].repr <= region && vs[i].Valid() && vs[i].value == values[i]
  {
    hide TreeVertex.Valid;
  }

  lemma ForestGrows(vs: seq<TreeVertex>, values: seq<Perm>, region: set<TreeVertex>, more: set<TreeVertex>)
    requires Forest(vs, values, region) && region <= more
    ensures Forest(vs, values, more)
  {
    hide TreeVertex.Valid;
  }

  lemma ForestConcat(vs: seq<TreeVertex>, values: seq<Perm>, us: seq<TreeVertex>, more: seq<Perm>, region: set<TreeVertex>)
    requires Forest(vs, values, region) && Forest(us, more, region)
    ensures Forest(vs + us, values + more, region)
  {
    hide TreeVertex.Valid;
  }

  /** The loop of `permute` that tells the permutations in which a vertex occurs from the others. */
  method Partition(perms: seq<TreeVertex>, id: string, ghost values: seq<Perm>, ghost region: set<TreeVertex>)
    returns (with': seq<TreeVertex>, without: seq<TreeVertex>)
    requires Forest(perms, values, region)
    ensures Forest(with', Keep(values, id, true), region) && Forest(without, Keep(values, id, false), region)
  {
    hide Forest; hide TreeVertex.Valid; hide Find;
    with', without := [], [];
    EmptyForest(region);
    assert |values| == |perms| by { ForestLength(perms, values, region); }
    for i := 0 to |perms|
      invariant Forest(with', Keep(values[..i], id, true), region)
      invariant Forest(without, Keep(values[..i], id, false), region)
    {
      ForestAt(perms, values, region, i);
      assert values[..i + 1][..i] == values[..i];
      var v := perms[i].FindVertex(id);
      if v != null {
        AddToForest(with', Keep(values[..i], id, true), region, perms[i]);
        with' := with' + [perms[i]];
      } else {
        AddToForest(without, Keep(values[..i], id, false), region, perms[i]);
        without := without + [perms[i]];
      }
    }
    assert values[..|perms|] == values;
  }

  lemma ForestLength(vs: seq<TreeVertex>, values: seq<Perm>, region: set<TreeVertex>)
    requires Forest(vs, values, region)
    ensures |vs| == |values|
  {
  }

  /** One permutation cloned for each selection, with the vertex replaced in the clone. */
  method ReplaceEachIn(perm: TreeVertex, id: string, sels: seq<seq<TreeVertex>>, ghost selValues: seq<seq<Perm>>, ghost region: set<TreeVertex>)
    returns (out: seq<TreeVertex>, ghost more: set<TreeVertex>)
    requires perm.Valid() && perm.repr <= region && Forests(sels, selValues, region)
    ensures region <= more && Forest(out, ReplaceEach(perm.value, id, selValues), more)
  {
    hide Forest; hide TreeVertex.Valid; hide TreeVertex.Separate; hide Replace;
    out, more := [], region;
    EmptyForest(region);
    for j := 0 to |sels|
      invariant region <= more
      invariant Forest(out, ReplaceEach(perm.value, id, selValues)[..j], more)
    {
      var newTree := perm.Clone();
      newTree.ReplaceAt(id, sels[j], selValues[j], region);
      InOwnRepr(newTree);
      ForestGrows(out, ReplaceEach(perm.value, id, selValues)[..j], more, more + newTree.repr);
      more := more + newTree.repr;
      AddToForest(out, ReplaceEach(perm.value, id, selValues)[..j], more, newTree);
      assert ReplaceEach(perm.value, id, selValues)[..j + 1] == ReplaceEach(perm.value, id, selValues)[..j] + [newTree.value];
      out := out + [newTree];
    }
    assert ReplaceEach(perm.value, id, selValues)[..|sels|] == ReplaceEach(perm.value, id, selValues);
  }

  lemma InOwnRepr(v: TreeVertex)
    requires v.Valid()
    ensures v in v.repr
  {
  }

  /** The loop of `permute` that replaces a vertex in every permutation in which it occurs. */
  method ExpandPerms(perms: seq<TreeVertex>, id: string, sels: seq<seq<TreeVertex>>,
                     ghost values: seq<Perm>, ghost selValues: seq<seq<Perm>>, ghost region: set<TreeVertex>)
    returns (out: seq<TreeVertex>, ghost more: set<TreeVertex>)
    requires Forest(perms, values, region) && Forests(sels, selValues, region)
    ensures region <= more && Forest(out, ExpandAll(values, id, selValues), more)
  {
    hide Forest; hide Forests; hide TreeVertex.Valid; hide ReplaceEach;
    out, more := [], region;
    EmptyForest(region);
    ForestLength(perms, values, region);
    for i := 0 to |perms|
      invariant region <= more
      invariant Forest(out, ExpandAll(values[..i], id, selValues), more)
    {
      ForestAt(perms, values, region, i);
      var each, wider := ReplaceEachIn(perms[i], id, sels, selValues, region);
      ForestGrows(out, ExpandAll(values[..i], id, selValues), more, more + wider);
      ForestGrows(each, ReplaceEach(values[i], id, selValues), wider, more + wider);
      more := more + wider;
      ForestConcat(out, ExpandAll(values[..i], id, selValues), each, ReplaceEach(values[i], id, selValues), more);
      assert values[..i + 1][..i] == values[..i];
      out := out + each;
    }
    assert values[..|perms|] == values;
  }

  lemma StartEnumerates(t: Tree)
    ensures Enumerates([Whole(t)], t, {})
  {
  }

  lemma AllEnumerated(values: seq<Perm>, t: Tree, done: set<string>)
    requires Enumerates(values, t, done) && IsQueue(t, [], done)
    ensures Distinct(values) && forall p :: p in values <==> IsPerm(t, p)
  {
    hide IsPerm; hide IsPartial; hide IsQueue;
    QueueDone(t, done);
    forall p ensures p in values <==> IsPerm(t, p) {
      PartialWhenAllDone(t, p, done);
    }
  }

  lemma QueueShrinks(queue: seq<Tree>)
    requires queue != []
    ensures Sizes(queue[1..] + queue[0].children) < Sizes(queue)
  {
    SizesConcat(queue[1..], queue[0].children);
  }

  /** One round of the loop of `permute`, for a vertex with the given id and selections of descendants. */
  method ExpandVertex(id: string, sels: seq<seq<TreeVertex>>, perms: seq<TreeVertex>, ghost v: Tree, ghost values: seq<Perm>, ghost region: set<TreeVertex>)
    returns (out: seq<TreeVertex>, ghost more: set<TreeVertex>)
    requires id == v.id && Forests(sels, Selections(v), region) && Forest(perms, values, region)
    ensures region <= more && Forest(out, Expand(values, v), more)
  {
    hide Forest; hide Forests; hide TreeVertex.Valid; hide Keep; hide ExpandAll; hide Selections;
    var with', without := Partition(perms, id, values, region);
    out, more := ExpandPerms(with', id, sels, Keep(values, id, true), Selections(v), region);
    ForestGrows(without, Keep(values, id, false), region, more);
    ForestConcat(without, Keep(values, id, false), out, ExpandAll(Keep(values, id, true), id, Selections(v)), more);
    out := without + out;
  }
}
