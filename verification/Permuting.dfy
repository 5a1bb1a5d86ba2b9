/**
 `common/graph/perm.go`: pruning a tree of vertices in place and expanding what is left into all its
 permutations.
 */
module Permuting {
  import opened Wrappers
  import opened Choose
  import opened Permutations
  import opened Pruning
  import opened ThresholdFormula
  import opened TreeVertices

  // ---------------------------------------------------------------------------------------------
  // Sub-trees and the vertices that hold them
  // ---------------------------------------------------------------------------------------------

  lemma {:induction false} FrontierSub(t: Tree, v: Tree, done: set<string>)
    requires Frontier(t, v, done)
    ensures v in Subs(t)
    decreases t
  {
    if v != t {
      var i :| 0 <= i < |t.children| && Frontier(t.children[i], v, done);
      FrontierSub(t.children[i], v, done);
      SubsOfChild(t, i);
    }
  }

  /** The vertex that holds each sub-tree, under the id of the sub-tree. */
  type Nodes = map<string, TreeVertex>

  predicate AllIn(node: Nodes, ts: seq<Tree>) {
    forall i | 0 <= i < |ts| :: ts[i].id in node
  }

  function VerticesOf(node: Nodes, ts: seq<Tree>): (vs: seq<TreeVertex>)
    requires AllIn(node, ts)
    ensures |vs| == |ts|
  {
    seq(|ts|, i requires 0 <= i < |ts| => node[ts[i].id])
  }

  /** The descendants that each vertex has at some moment. */
  type Edges = map<TreeVertex, seq<TreeVertex>>

  ghost predicate EdgesAre(edges: Edges, node: Nodes)
    reads node.Values
  {
    forall x | x in node :: node[x] in edges && node[x].descendants == edges[node[x]]
  }

  /** The vertex carries the label of the sub-tree. */
  predicate Labelled(node: Nodes, s: Tree) {
    && s.id in node && AllIn(node, s.children)
    && var v := node[s.id];
       v.id == s.id && v.data == s.data && v.threshold == s.threshold
  }

  function DescendantsOf(edges: Edges, node: Nodes, s: Tree): seq<TreeVertex> {
    if s.id in node && node[s.id] in edges then edges[node[s.id]] else []
  }

  /** The descendants of the vertex are the vertices of the children. */
  predicate HoldsSub(edges: Edges, node: Nodes, s: Tree) {
    AllIn(node, s.children) && DescendantsOf(edges, node, s) == VerticesOf(node, s.children)
  }

  ghost function ChildWith(t: Tree, x: string): (i: nat)
    requires x in Ids(t) && x != t.id
    ensures i < |t.children| && x in Ids(t.children[i])
  {
    var c :| c in t.children && x in Ids(c);
    var i: nat :| i < |t.children| && t.children[i] == c;
    i
  }

  /** The vertex with the given id. */
  ghost function VertexAt(v: TreeVertex, t: Tree, x: string): TreeVertex
    requires Represents(v, t) && x in Ids(t)
    reads v, v.repr
    decreases t
  {
    if x == t.id then v
    else
      var i := ChildWith(t, x);
      RepresentedDescendant(v, t, i);
      VertexAt(v.descendants[i], t.children[i], x)
  }

  lemma VertexBelow(v: TreeVertex, t: Tree, i: nat, x: string)
    requires Represents(v, t) && UniqueIds(t) && i < |t.children| && x in Ids(t.children[i])
    ensures x in Ids(t) && VertexAt(v, t, x) == VertexAt(v.descendants[i], t.children[i], x)
  {
    hide Ids; hide TreeVertex.Valid;
    ChildIds(t, i);
    assert ChildWith(t, x) == i;
  }

  /** The vertex with the id of a sub-tree holds the sub-tree. */
  lemma {:induction false} VertexHoldsSub(v: TreeVertex, t: Tree, s: Tree)
    requires Represents(v, t) && UniqueIds(t) && s in Subs(t)
    ensures s.id in Ids(t) && forall i | 0 <= i < |s.children| :: s.children[i].id in Ids(t)
    ensures var w := VertexAt(v, t, s.id);
            && w in v.repr && w.repr <= v.repr && Represents(w, s)
            && forall i | 0 <= i < |s.children| :: VertexAt(v, t, s.children[i].id) == w.descendants[i]
    decreases t
  {
    hide Ids; hide TreeVertex.Valid; hide Subs; hide VertexAt;
    if s == t {
      RootVertex(v, t);
      InOwnRepr(v);
      forall i | 0 <= i < |t.children| ensures t.children[i].id in Ids(t) && VertexAt(v, t, t.children[i].id) == v.descendants[i] {
        RepresentedDescendant(v, t, i);
        RootVertex(v.descendants[i], t.children[i]);
        VertexBelow(v, t, i, t.children[i].id);
      }
    } else {
      var i := SubCases(t, s);
      RepresentedDescendant(v, t, i);
      VertexHoldsSub(v.descendants[i], t.children[i], s);
      VertexBelow(v, t, i, s.id);
      forall k | 0 <= k < |s.children|
        ensures s.children[k].id in Ids(t) && VertexAt(v, t, s.children[k].id) == VertexAt(v.descendants[i], t.children[i], s.children[k].id)
      {
        VertexBelow(v, t, i, s.children[k].id);
      }
    }
  }

  lemma RootVertex(v: TreeVertex, t: Tree)
    requires Represents(v, t)
    ensures t.id in Ids(t) && VertexAt(v, t, t.id) == v
  {
    hide Represents;
  }

  /** The vertices of a whole tree, and their descendants. */
  lemma NodesOf(v: TreeVertex, t: Tree) returns (node: Nodes, edges: Edges)
    requires Represents(v, t) && UniqueIds(t)
    ensures node.Keys == Ids(t) && node.Values <= v.repr && node[t.id] == v && EdgesAre(edges, node)
    ensures forall s | s in Subs(t) :: Labelled(node, s) && HoldsSub(edges, node, s)
  {
    hide Represents; hide Subs; hide Ids; hide VertexAt; hide Labelled; hide HoldsSub; hide UniqueIds;
    node := map x | x in Ids(t) :: VertexAt(v, t, x);
    edges := map w | w in node.Values :: w.descendants;
    RootVertex(v, t);
    forall x | x in Ids(t) ensures node[x] in v.repr {
      var s := SubWith(t, x);
      VertexHoldsSub(v, t, s);
    }
    forall s | s in Subs(t) ensures Labelled(node, s) && HoldsSub(edges, node, s) {
      VertexHoldsSub(v, t, s);
      RepresentedLabel(node, edges, s);
    }
  }

  lemma {:induction false} SubWith(t: Tree, x: string) returns (s: Tree)
    requires x in Ids(t)
    ensures s in Subs(t) && s.id == x
    decreases t
  {
    s := t;
    if x != t.id {
      var i := ChildWith(t, x);
      s := SubWith(t.children[i], x);
      SubsOfChild(t, i);
    }
  }

  lemma RepresentedLabel(node: Nodes, edges: Edges, s: Tree)
    requires s.id in node && Represents(node[s.id], s) && EdgesAre(edges, node)
    requires forall i | 0 <= i < |s.children| :: s.children[i].id in node && node[s.children[i].id] == node[s.id].descendants[i]
    ensures Labelled(node, s) && HoldsSub(edges, node, s)
  {
    hide TreeVertex.Valid;
  }

  // ---------------------------------------------------------------------------------------------
  // Pruning
  // ---------------------------------------------------------------------------------------------

  /** Which selections of descendants there are, for each vertex. */
  type DescendantPermutations = map<TreeVertex, seq<seq<TreeVertex>>>

  function OptionsOf(dp: DescendantPermutations, v: TreeVertex): seq<seq<TreeVertex>> {
    if v in dp then dp[v] else []
  }

  function SelectFrom(vs: seq<TreeVertex>, idx: seq<nat>): seq<TreeVertex>
    requires Increasing(idx, 0, |vs|)
  {
    seq(|idx|, j requires 0 <= j < |idx| => vs[idx[j]])
  }

  /** All selections of the given number of vertices. */
  function Options(vs: seq<TreeVertex>, k: nat): seq<seq<TreeVertex>> {
    ChooseExact(|vs|, k);
    var choices := ChooseKoutOfN(|vs|, k);
    assert forall i | 0 <= i < |choices| :: choices[i] in choices;
    seq(|choices|, i requires 0 <= i < |choices| => SelectFrom(vs, choices[i]))
  }

  /** The descendants of the vertex are the vertices of the kept children. */
  predicate PrunedTo(edges: Edges, node: Nodes, s: Tree, bound: nat, kept: seq<Tree>, f: seq<nat>) {
    && KeptAre(kept, s.children, f) && Trimmed(|s.children|, |kept|, s.threshold, bound)
    && AllIn(node, kept) && DescendantsOf(edges, node, s) == VerticesOf(node, kept)
  }

  ghost predicate Pruned(edges: Edges, node: Nodes, s: Tree, bound: nat) {
    exists kept, f :: PrunedTo(edges, node, s, bound, kept, f)
  }

  /** The selections recorded for the vertex are all those of the descendants it has. */
  predicate Recorded(edges: Edges, node: Nodes, s: Tree, dp: DescendantPermutations) {
    s.id in node && OptionsOf(dp, node[s.id]) == Options(DescendantsOf(edges, node, s), s.threshold)
  }

  /** A vertex that has been visited is pruned and recorded, any other is as it was. */
  ghost predicate AtVertex(edges: Edges, node: Nodes, s: Tree, done: set<string>, dp: DescendantPermutations, bound: nat) {
    if s.children != [] && s.id in done then Pruned(edges, node, s, bound) && Recorded(edges, node, s, dp)
    else HoldsSub(edges, node, s) && s.id in node && node[s.id] !in dp
  }

  ghost predicate Progress(edges: Edges, node: Nodes, t: Tree, done: set<string>, dp: DescendantPermutations, bound: nat) {
    forall s {:trigger s in Subs(t)} | s in Subs(t) :: Labelled(node, s) && AtVertex(edges, node, s, done, dp, bound)
  }

  lemma PrunedNow(edges: Edges, node: Nodes, s: Tree, bound: nat, kept: seq<TreeVertex>, f: seq<nat>)
    requires s.id in node && HoldsSub(edges, node, s)
    requires KeptAre(kept, DescendantsOf(edges, node, s), f) && Trimmed(|s.children|, |kept|, s.threshold, bound)
    ensures Pruned(edges[node[s.id] := kept], node, s, bound)
  {
    hide Increasing; hide CombinationsExceed;
    IndicesInRange(f, |s.children|);
    var trees := seq(|f|, j requires 0 <= j < |f| => s.children[f[j]]);
    assert kept == VerticesOf(node, trees);
    assert PrunedTo(edges[node[s.id] := kept], node, s, bound, trees, f);
  }

  lemma IndicesInRange(f: seq<nat>, n: nat)
    requires Increasing(f, 0, n)
    ensures forall j | 0 <= j < |f| :: f[j] < n
  {
  }

  lemma OtherStays(edges: Edges, node: Nodes, s: Tree, r: Tree, done: set<string>, dp: DescendantPermutations, bound: nat,
                   kept: seq<TreeVertex>, options: seq<seq<TreeVertex>>)
    requires Labelled(node, s) && Labelled(node, r) && s.id != r.id && AtVertex(edges, node, r, done, dp, bound)
    ensures AtVertex(edges[node[s.id] := kept], node, r, done + {s.id}, dp[node[s.id] := options], bound)
    ensures AtVertex(edges[node[s.id] := kept], node, r, done + {s.id}, dp, bound)
  {
    hide Options; hide KeptAre; hide Trimmed; hide VerticesOf;
    var more := edges[node[s.id] := kept];
    assert DescendantsOf(more, node, r) == DescendantsOf(edges, node, r);
    if r.children != [] && r.id in done {
      var trees, g :| PrunedTo(edges, node, r, bound, trees, g);
      assert PrunedTo(more, node, r, bound, trees, g);
    }
  }

  /** The selections of one vertex are recorded; there is no entry if there are none. */
  predicate Extends(dp: DescendantPermutations, before: DescendantPermutations, v: TreeVertex, options: seq<seq<TreeVertex>>) {
    if options == [] then dp == before else dp == before[v := options]
  }

  lemma ProgressStep(edges: Edges, node: Nodes, t: Tree, s: Tree, done: set<string>, dp: DescendantPermutations, more: DescendantPermutations,
                     bound: nat, kept: seq<TreeVertex>, f: seq<nat>)
    requires UniqueIds(t) && s in Subs(t) && s.children != [] && s.id !in done && Progress(edges, node, t, done, dp, bound)
    requires KeptAre(kept, DescendantsOf(edges, node, s), f) && Trimmed(|DescendantsOf(edges, node, s)|, |kept|, s.threshold, bound)
    requires s.id in node && Extends(more, dp, node[s.id], Options(kept, s.threshold))
    ensures Progress(edges[node[s.id] := kept], node, t, done + {s.id}, more, bound)
  {
    hide Subs; hide UniqueIds; hide KeptAre; hide Trimmed; hide Options; hide Labelled; hide VerticesOf; hide Pruned;
    var v := node[s.id];
    forall r | r in Subs(t) ensures AtVertex(edges[v := kept], node, r, done + {s.id}, more, bound) {
      if r.id == s.id {
        SubUnique(t, s, r);
        PrunedNow(edges, node, s, bound, kept, f);
      } else {
        OtherStays(edges, node, s, r, done, dp, bound, kept, Options(kept, s.threshold));
      }
    }
  }

  // ---------------------------------------------------------------------------------------------
  // What is left after pruning
  // ---------------------------------------------------------------------------------------------

  /** The vertex holds the sub-tree as it is, and its selections are recorded. */
  predicate Settled(edges: Edges, node: Nodes, s: Tree, dp: DescendantPermutations) {
    Labelled(node, s) && HoldsSub(edges, node, s) && (s.children != [] ==> Recorded(edges, node, s, dp))
  }

  ghost predicate AllSettled(edges: Edges, node: Nodes, u: Tree, dp: DescendantPermutations) {
    forall r {:trigger r in Subs(u)} | r in Subs(u) :: Settled(edges, node, r, dp)
  }

  /** Once every vertex has been visited, what hangs below a vertex is a pruning of the sub-tree it held. */
  lemma {:induction false} PrunedTree(edges: Edges, node: Nodes, t: Tree, s: Tree, done: set<string>, dp: DescendantPermutations, bound: nat)
    returns (u: Tree)
    requires UniqueIds(t) && Progress(edges, node, t, done, dp, bound) && InnerIds(t) <= done && s in Subs(t)
    ensures Prunes(s, u, bound) && AllSettled(edges, node, u, dp)
    decreases s
  {
    hide Subs; hide UniqueIds; hide KeptAre; hide Trimmed; hide Options; hide Labelled; hide VerticesOf; hide Prunes; hide PrunedTo; hide Settled; hide InnerIds;
    SubFacts(t, s);
    if s.children == [] {
      u := s;
      LeafPruned(edges, node, s, dp, bound);
    } else {
      var kept, f :| PrunedTo(edges, node, s, bound, kept, f);
      var us: seq<Tree> := [];
      for j := 0 to |kept|
        invariant |us| == j
        invariant forall l | 0 <= l < j :: Prunes(kept[l], us[l], bound) && AllSettled(edges, node, us[l], dp)
      {
        KeptIsSub(edges, node, t, s, bound, kept, f, j);
        var c := PrunedTree(edges, node, t, s.children[f[j]], done, dp, bound);
        us := us + [c];
      }
      u := Tree(s.id, s.data, s.threshold, us);
      VertexPruned(edges, node, s, u, dp, bound, kept, f);
    }
  }

  lemma LeafPruned(edges: Edges, node: Nodes, s: Tree, dp: DescendantPermutations, bound: nat)
    requires s.children == [] && Labelled(node, s) && HoldsSub(edges, node, s)
    ensures Prunes(s, s, bound) && AllSettled(edges, node, s, dp)
  {
    assert PrunesChildren(s, s, bound, []);
  }

  lemma KeptIsSub(edges: Edges, node: Nodes, t: Tree, s: Tree, bound: nat, kept: seq<Tree>, f: seq<nat>, j: nat)
    requires UniqueIds(t) && s in Subs(t) && PrunedTo(edges, node, s, bound, kept, f) && j < |kept|
    ensures |f| == |kept| && f[j] < |s.children| && kept[j] == s.children[f[j]] && kept[j] in Subs(t)
  {
    hide Subs; hide UniqueIds; hide Trimmed; hide VerticesOf;
    SubFacts(t, s);
    SubsOfChild(s, f[j]);
    assert kept[j] in Subs(kept[j]) by { SelfSub(kept[j]); }
  }

  lemma VertexPruned(edges: Edges, node: Nodes, s: Tree, u: Tree, dp: DescendantPermutations, bound: nat, kept: seq<Tree>, f: seq<nat>)
    requires Labelled(node, s) && Recorded(edges, node, s, dp) && PrunedTo(edges, node, s, bound, kept, f)
    requires u.id == s.id && u.data == s.data && u.threshold == s.threshold && |u.children| == |kept|
    requires forall j | 0 <= j < |kept| :: Prunes(kept[j], u.children[j], bound) && AllSettled(edges, node, u.children[j], dp)
    ensures Prunes(s, u, bound) && AllSettled(edges, node, u, dp)
  {
    hide Subs; hide KeptAre; hide Trimmed; hide Options;
    PrunedVertex(s, u, bound, kept, f);
    forall j | 0 <= j < |kept| ensures u.children[j].id == kept[j].id {
      PrunedId(kept[j], u.children[j], bound);
    }
    assert VerticesOf(node, u.children) == VerticesOf(node, kept);
    assert Settled(edges, node, u, dp);
    forall r | r in Subs(u) ensures Settled(edges, node, r, dp) {
      if r != u {
        var j := SubCases(u, r);
      }
    }
  }

  // ---------------------------------------------------------------------------------------------
  // The ghost fields of the vertices that are left
  // ---------------------------------------------------------------------------------------------

  /** The vertices of a sub-tree. */
  ghost function VerticesIn(node: Nodes, s: Tree): set<TreeVertex> {
    set x | x in Ids(s) && x in node :: node[x]
  }

  /** The ghost fields of the vertex are right for the sub-tree. */
  ghost predicate UpToDate(node: Nodes, s: Tree)
    reads node.Values
  {
    s.id in node && node[s.id].value == Whole(s) && node[s.id].repr == VerticesIn(node, s)
  }

  /** Makes the ghost fields say what the vertices hold. */
  ghost method Refresh(node: Nodes, u: Tree)
    requires UniqueIds(u) && forall r | r in Subs(u) :: Labelled(node, r)
    modifies node.Values
    ensures forall r | r in Subs(u) :: UpToDate(node, r)
    ensures forall x | x in node :: node[x].descendants == old(node[x].descendants)
  {
    hide Subs; hide UniqueIds; hide Ids; hide Whole;
    forall x | x in Ids(u) ensures x in node && node[x].id == x && SubOf(u, x) in Subs(u) {
      var s := SubWith(u, x);
    }
    forall x | x in Ids(u) {
      node[x].value := Whole(SubOf(u, x));
    }
    forall x | x in Ids(u) {
      node[x].repr := VerticesIn(node, SubOf(u, x));
    }
    forall r | r in Subs(u) ensures r.id in Ids(u) && SubOf(u, r.id) == r {
      SubFacts(u, r);
      SubUnique(u, r, SubOf(u, r.id));
    }
  }

  ghost function SubOf(t: Tree, x: string): (s: Tree)
    requires x in Ids(t)
    ensures s in Subs(t) && s.id == x
  {
    SubExists(t, x);
    var s :| s in Subs(t) && s.id == x;
    s
  }

  lemma SubExists(t: Tree, x: string)
    requires x in Ids(t)
    ensures exists s :: s in Subs(t) && s.id == x
  {
    var s := SubWith(t, x);
  }

  /** The representations of the descendants are inside that of the vertex, which is not in them. */
  lemma ReprsNest(node: Nodes, s: Tree, i: nat)
    requires UniqueIds(s) && i < |s.children| && Labelled(node, s) && Labelled(node, s.children[i])
    requires forall x | x in Ids(s) && x in node :: node[x].id == x
    ensures var c := s.children[i];
            && node[s.id] in VerticesIn(node, s) && node[c.id] in VerticesIn(node, s)
            && VerticesIn(node, c) <= VerticesIn(node, s) && node[s.id] !in VerticesIn(node, c)
  {
    SelfId(s);
    SelfId(s.children[i]);
    ChildIds(s, i);
    hide Ids;
  }

  lemma UpToDateVertex(edges: Edges, node: Nodes, s: Tree)
    requires UniqueIds(s) && Labelled(node, s) && HoldsSub(edges, node, s) && EdgesAre(edges, node) && UpToDate(node, s)
    requires forall x | x in Ids(s) && x in node :: node[x].id == x
    requires forall i | 0 <= i < |s.children| ::
               Labelled(node, s.children[i]) && UpToDate(node, s.children[i]) && Represents(node[s.children[i].id], s.children[i])
    ensures Represents(node[s.id], s)
  {
    var v := node[s.id];
    assert v in VerticesIn(node, s) by { SelfId(s); }
    hide Ids; hide UniqueIds; hide VerticesIn;
    assert Whole(s).kids == Wholes(s.children);
    forall i | 0 <= i < |s.children|
      ensures var c := v.descendants[i];
              && c in v.repr && c.repr <= v.repr && v !in c.repr && c.value == v.value.kids[i] && Represents(c, s.children[i])
    {
      ReprsNest(node, s, i);
    }
  }

  /** Vertices whose ghost fields are right represent their sub-trees. */
  lemma {:induction false} AllRepresent(edges: Edges, node: Nodes, u: Tree, s: Tree, dp: DescendantPermutations)
    requires UniqueIds(u) && AllSettled(edges, node, u, dp) && EdgesAre(edges, node) && s in Subs(u)
    requires forall r | r in Subs(u) :: UpToDate(node, r)
    ensures s.id in node && Represents(node[s.id], s)
    decreases s
  {
    SubFacts(u, s);
    hide Subs; hide UniqueIds; hide Ids; hide Options; hide Whole; hide UpToDate; hide Represents; hide HoldsSub; hide Recorded; hide EdgesAre;
    forall i | 0 <= i < |s.children|
      ensures Labelled(node, s.children[i]) && UpToDate(node, s.children[i]) && Represents(node[s.children[i].id], s.children[i])
    {
      SubsOfChild(s, i);
      SelfSub(s.children[i]);
      AllRepresent(edges, node, u, s.children[i], dp);
    }
    forall x | x in Ids(s) && x in node ensures node[x].id == x {
      var r := SubWith(s, x);
      assert r in Subs(u);
    }
    UpToDateVertex(edges, node, s);
  }

  // ---------------------------------------------------------------------------------------------
  // The queue of the breadth-first walk
  // ---------------------------------------------------------------------------------------------

  lemma QueueIsSubs(t: Tree, queue: seq<Tree>, done: set<string>, i: nat)
    requires IsQueue(t, queue, done) && i < |queue|
    ensures queue[i] in Subs(t) && queue[i].id !in done
  {
    FrontierSub(t, queue[i], done);
    SelfId(queue[i]);
    hide Ids;
  }

  /** Popping the first vertex and pushing its descendants keeps the queues in step. */
  lemma QueueVertices(node: Nodes, queue: seq<Tree>, s: Tree)
    requires queue != [] && s == queue[0] && AllIn(node, queue) && AllIn(node, s.children)
    ensures VerticesOf(node, queue)[0] == node[s.id]
    ensures AllIn(node, queue[1..] + s.children)
    ensures VerticesOf(node, queue[1..] + s.children) == VerticesOf(node, queue)[1..] + VerticesOf(node, s.children)
  {
  }

  lemma OneVertex(node: Nodes, s: Tree)
    requires s.id in node
    ensures AllIn(node, [s]) && VerticesOf(node, [s]) == [node[s.id]]
  {
  }

  /** The loop that removes descendants of a vertex while there are too many ways of combining them. */
  method PruneDescendants(v: TreeVertex, bound: nat) returns (ghost f: seq<nat>)
    requires bound >= 1
    modifies v`descendants
    ensures KeptAre(v.descendants, old(v.descendants), f)
    ensures Trimmed(|old(v.descendants)|, |v.descendants|, v.threshold, bound)
    ensures |ChooseKoutOfN(|v.descendants|, v.threshold)| <= bound
    ensures |v.descendants| < |old(v.descendants)| ==> |ChooseKoutOfN(|v.descendants| + 1, v.threshold)| > bound
  {
    ghost var all := v.descendants;
    f := seq(|all|, i => i);
    assert KeptAre(v.descendants, all, f);
    hide KeptAre; hide CombinationsExceed;
    while CombinationsExceed(|v.descendants|, v.threshold, bound)
      invariant KeptAre(v.descendants, all, f)
      invariant v.threshold <= |all| ==> v.threshold <= |v.descendants|
      invariant |all| <= v.threshold ==> v.descendants == all
      invariant v.descendants == [] ==> all == []
      invariant |v.descendants| <= |all|
      invariant |v.descendants| < |all| ==> CombinationsExceed(|v.descendants| + 1, v.threshold, bound)
      decreases |v.descendants|
    {
      ExceedsAboveThreshold(|v.descendants|, v.threshold, bound);
      var victim: nat :| victim < |v.descendants|;
      RemoveVictim(v.descendants, all, f, victim);
      v.descendants := v.descendants[..victim] + v.descendants[victim + 1..];
      f := Without(f, victim);
    }
    hide ChooseKoutOfN;
    ExceedExactly(|v.descendants|, v.threshold, bound);
    ExceedExactly(|v.descendants| + 1, v.threshold, bound);
  }

  /** `selectDescendants` */
  method SelectDescendants(v: TreeVertex, indices: seq<nat>) returns (r: seq<TreeVertex>)
    requires Increasing(indices, 0, |v.descendants|)
    ensures r == SelectFrom(v.descendants, indices)
  {
    r := [];
    for i := 0 to |indices|
      invariant r == SelectFrom(v.descendants, indices)[..i]
    {
      r := r + [v.descendants[indices[i]]];
    }
  }

  /** `treePermutations` */
  class TreePermutations {
    const combinationUpperBound: nat
    const originalRoot: TreeVertex
    var permutations: seq<TreeVertex>
    var descendantPermutations: DescendantPermutations

    /** `newTreePermutation` */
    constructor (root: TreeVertex, combinationUpperBound: nat)
      ensures this.originalRoot == root && this.combinationUpperBound == combinationUpperBound
      ensures permutations == [root] && descendantPermutations == map[]
    {
      this.originalRoot, this.combinationUpperBound := root, combinationUpperBound;
      permutations, descendantPermutations := [root], map[];
    }

    /** The loop of `computeDescendantPermutations` that records the selections of one vertex. */
    method Record(v: TreeVertex)
      requires v !in descendantPermutations
      modifies this`descendantPermutations
      ensures Extends(descendantPermutations, old(descendantPermutations), v, Options(v.descendants, v.threshold))
    {
      var choices := ChooseAll(|v.descendants|, v.threshold);
      ghost var before, all := descendantPermutations, Options(v.descendants, v.threshold);
      for i := 0 to |choices|
        invariant Extends(descendantPermutations, before, v, all[..i])
      {
        OptionsAt(v.descendants, v.threshold, i);
        var selected := SelectDescendants(v, choices[i]);
        assert all[..i + 1] == all[..i] + [selected];
        descendantPermutations := descendantPermutations[v := OptionsOf(descendantPermutations, v) + [selected]];
      }
      assert all[..|choices|] == all;
    }

    /** One round of the loop of `computeDescendantPermutations`, for a vertex that has descendants. */
    method VisitVertex(v: TreeVertex, ghost t: Tree, ghost s: Tree, ghost node: Nodes, ghost start: Edges, ghost done: set<string>) returns (ghost edges: Edges)
      requires combinationUpperBound >= 1 && UniqueIds(t) && s in Subs(t) && s.id !in done && s.children != []
      requires EdgesAre(start, node) && Progress(start, node, t, done, descendantPermutations, combinationUpperBound)
      requires s.id in node && v == node[s.id] && v !in descendantPermutations && v.threshold == s.threshold
      modifies this`descendantPermutations, v`descendants
      ensures EdgesAre(edges, node) && Progress(edges, node, t, done + {s.id}, descendantPermutations, combinationUpperBound)
    {
      hide Subs; hide UniqueIds; hide Progress; hide KeptAre; hide Trimmed; hide Options; hide Extends;
      ghost var before := descendantPermutations;
      ghost var f := PruneDescendants(v, combinationUpperBound);
      Record(v);
      ProgressStep(start, node, t, s, done, before, descendantPermutations, combinationUpperBound, v.descendants, f);
      edges := start[v := v.descendants];
    }

    /** The loop of `computeDescendantPermutations`. */
    method VisitVertices(ghost t: Tree, ghost node: Nodes, ghost start: Edges) returns (ghost done: set<string>, ghost edges: Edges)
      requires combinationUpperBound >= 1 && UniqueIds(t) && t.id in node && node[t.id] == originalRoot
      requires EdgesAre(start, node) && Progress(start, node, t, {}, descendantPermutations, combinationUpperBound)
      modifies this`descendantPermutations, node.Values`descendants
      ensures EdgesAre(edges, node) && Progress(edges, node, t, done, descendantPermutations, combinationUpperBound)
      ensures InnerIds(t) <= done
    {
      hide Subs; hide Ids; hide UniqueIds; hide IsQueue; hide Progress; hide Sizes; hide VerticesOf; hide KeptAre; hide Trimmed; hide Options; hide InnerIds; hide HoldsSub;
      ghost var queue := [t];
      done, edges := {}, start;
      var it := new BfsIterator(originalRoot);
      QueueStart(t);
      assert [originalRoot] == VerticesOf(node, [t]) by { OneVertex(node, t); }
      while it.arr != []
        invariant fresh(it)
        invariant IsQueue(t, queue, done) && AllIn(node, queue) && it.arr == VerticesOf(node, queue)
        invariant EdgesAre(edges, node) && Progress(edges, node, t, done, descendantPermutations, combinationUpperBound)
        decreases Sizes(queue)
      {
        ghost var s := queue[0];
        QueueIsSubs(t, queue, done, 0);
        QueueShrinks(queue);
        QueueStep(t, queue, done);
        Unvisited(edges, node, t, s, done, descendantPermutations, combinationUpperBound);
        QueueVertices(node, queue, s);
        var v := it.Next();
        if |v.descendants| != 0 {
          edges := VisitVertex(v, t, s, node, edges, done);
        }
        queue, done := queue[1..] + s.children, DoneAfter(s, done);
      }
      QueueDone(t, done);
    }

    /** `computeDescendantPermutations`, for a tree of vertices that holds `t`: prunes it in place to `u`. */
    method ComputeDescendantPermutations(ghost t: Tree) returns (ghost u: Tree, ghost node: Nodes, ghost edges: Edges)
      requires combinationUpperBound >= 1 && descendantPermutations == map[]
      requires Represents(originalRoot, t) && UniqueIds(t)
      modifies this`descendantPermutations, originalRoot.repr
      ensures Prunes(t, u, combinationUpperBound) && UniqueIds(u) && u.id in node && node[u.id] == originalRoot
      ensures EdgesAre(edges, node) && AllSettled(edges, node, u, descendantPermutations)
      ensures originalRoot.repr <= old(originalRoot.repr) && Laid(originalRoot, node, u)
    {
      hide Represents; hide Subs; hide Ids; hide UniqueIds; hide Progress; hide Prunes; hide AllSettled; hide InnerIds; hide Laid; hide Labelled; hide Whole;
      ghost var done;
      node, edges := NodesOf(originalRoot, t);
      SelfId(t);
      ProgressStart(edges, node, t, combinationUpperBound);
      done, edges := VisitVertices(t, node, edges);
      SelfSub(t);
      u := PrunedTree(edges, node, t, t, done, descendantPermutations, combinationUpperBound);
      PrunedUnique(t, u, combinationUpperBound);
      PrunedId(t, u, combinationUpperBound);
      SettledLabels(edges, node, u, descendantPermutations);
      Refresh(node, u);
      SelfSub(u);
      assert UpToDate(node, u);
      AllLaid(edges, node, u, descendantPermutations);
    }

    /** The loop of `permute`, on vertices that hold the pruned tree `u`. */
    method ExpandVertices(ghost u: Tree, ghost node: Nodes, ghost edges: Edges) returns (ghost values: seq<Perm>, ghost region: set<TreeVertex>)
      requires permutations == [originalRoot] && UniqueIds(u) && u.id in node && node[u.id] == originalRoot
      requires EdgesAre(edges, node) && AllSettled(edges, node, u, descendantPermutations) && Laid(originalRoot, node, u)
      modifies this`permutations
      ensures Forest(permutations, values, region)
      ensures Distinct(values) && forall p :: p in values <==> IsPerm(u, p)
    {
      hide Forest; hide Represents; hide Subs; hide Ids; hide UniqueIds; hide IsQueue; hide AllSettled; hide Sizes; hide Enumerates; hide Laid; hide Expand; hide IsPerm;
      hide Forests; hide VerticesOf; hide Selections; hide EdgesAre; hide Whole;
      ghost var queue, done := [u], {};
      var it := new BfsIterator(originalRoot);
      values, region := [Whole(u)], originalRoot.repr;
      PermuteStart(originalRoot, node, u);
      assert [originalRoot] == VerticesOf(node, [u]) by { OneVertex(node, u); }
      while it.arr != []
        invariant fresh(it)
        invariant IsQueue(u, queue, done) && AllIn(node, queue) && it.arr == VerticesOf(node, queue)
        invariant EdgesAre(edges, node) && Laid(originalRoot, node, u) && originalRoot.repr <= region
        invariant Forest(permutations, values, region) && Enumerates(values, u, done)
        decreases Sizes(queue)
      {
        ghost var s := queue[0];
        QueueIsSubs(u, queue, done, 0);
        QueueShrinks(queue);
        QueueStep(u, queue, done);
        SettledVertex(originalRoot, edges, node, u, s, descendantPermutations, region);
        QueueVertices(node, queue, s);
        var v := it.Next();
        if |v.descendants| != 0 {
          QueueReady(u, queue, done);
          ExpandExact(values, u, s, done);
          permutations, region := ExpandVertex(v.id, OptionsOf(descendantPermutations, v), permutations, s, values, region);
          values := Expand(values, s);
        }
        queue, done := queue[1..] + s.children, DoneAfter(s, done);
      }
      AllEnumerated(values, u, done);
    }

    /**
     `permute`, for a tree of vertices that holds `t`. The tree is pruned in place to `u`: no vertex of it
     has more selections than the bound, and none has lost more children than that takes. The results
     are exactly the permutations of `u`, each once, and leave `u` as it is. The leaves of each result
     satisfy the original tree. Within the bound nothing is pruned, and the results decide the formula
     exactly when the tree is demanding; with sensible thresholds they decide it only within the bound.
     */
    method Permute(ghost t: Tree) returns (trees: seq<TreeVertex>, ghost u: Tree, ghost values: seq<Perm>, ghost region: set<TreeVertex>)
      requires combinationUpperBound >= 1 && permutations == [originalRoot] && descendantPermutations == map[]
      requires Represents(originalRoot, t) && UniqueIds(t)
      modifies this, originalRoot.repr
      ensures Prunes(t, u, combinationUpperBound) && Represents(originalRoot, u)
      ensures AtMost(u, combinationUpperBound) && OnlyWhileAbove(t, u, combinationUpperBound)
      ensures Forest(trees, values, region)
      ensures Distinct(values) && forall p :: p in values <==> IsPerm(u, p)
      ensures forall p | p in values :: Sat(t, LeafIds(p))
      ensures WithinBound(t, combinationUpperBound) ==> u == t && (Decide(values, t) <==> Demanding(t, Ids(t)))
      ensures WithinBound(t, combinationUpperBound) && PositiveThresholds(t) ==> Decide(values, t)
      ensures Sensible(t) ==> (Decide(values, t) <==> WithinBound(t, combinationUpperBound))
    {
      hide Forest; hide Represents; hide Prunes; hide Sat; hide IsPerm; hide LeafIds; hide Decide; hide Demanding; hide WithinBound; hide Sensible; hide Ids; hide AtMost; hide OnlyWhileAbove; hide Subs; hide AllSettled; hide UniqueIds;
      ghost var node, edges;
      u, node, edges := ComputeDescendantPermutations(t);
      values, region := ExpandVertices(u, node, edges);
      trees := permutations;
      SelfSub(u);
      PrunedCounts(t, u, combinationUpperBound);
      forall p | p in values ensures Sat(t, LeafIds(p)) {
        PrunedPermSatisfies(t, u, combinationUpperBound, p);
      }
      if WithinBound(t, combinationUpperBound) {
        DecideWithinBound(t, u, combinationUpperBound, values);
        if PositiveThresholds(t) {
          PositiveIsDemanding(t, Ids(t));
        }
      }
      if Sensible(t) {
        DecideExactlyWithinBound(t, u, combinationUpperBound, values);
      }
    }
  }

  /** Every sub-tree is represented by its vertex, inside the root. */
  ghost predicate Laid(root: TreeVertex, node: Nodes, u: Tree)
    reads root, root.repr, node.Values
  {
    forall r {:trigger r in Subs(u)} | r in Subs(u) ::
      r.id in node && node[r.id] in root.repr && node[r.id].repr <= root.repr && Represents(node[r.id], r)
  }

  lemma AllLaid(edges: Edges, node: Nodes, u: Tree, dp: DescendantPermutations)
    requires UniqueIds(u) && AllSettled(edges, node, u, dp) && EdgesAre(edges, node)
    requires forall r | r in Subs(u) :: UpToDate(node, r)
    ensures u.id in node && Laid(node[u.id], node, u)
  {
    hide Subs; hide UniqueIds; hide Ids; hide Represents; hide AllSettled; hide EdgesAre; hide Whole;
    SelfSub(u);
    forall r | r in Subs(u)
      ensures r.id in node && node[r.id] in node[u.id].repr && node[r.id].repr <= node[u.id].repr && Represents(node[r.id], r)
    {
      SubFacts(u, r);
      AllRepresent(edges, node, u, r, dp);
    }
  }

  lemma PermuteStart(root: TreeVertex, node: Nodes, u: Tree)
    requires UniqueIds(u) && Laid(root, node, u) && u.id in node && node[u.id] == root
    ensures IsQueue(u, [u], {}) && Forest([root], [Whole(u)], root.repr) && Enumerates([Whole(u)], u, {})
  {
    SelfSub(u);
    RepresentsWhole(root, u);
    InOwnRepr(root);
    QueueStart(u);
    StartEnumerates(u);
  }

  lemma SettledVertex(root: TreeVertex, edges: Edges, node: Nodes, u: Tree, s: Tree, dp: DescendantPermutations, region: set<TreeVertex>)
    requires Laid(root, node, u) && AllSettled(edges, node, u, dp) && EdgesAre(edges, node) && s in Subs(u) && root.repr <= region
    ensures Labelled(node, s) && node[s.id].descendants == VerticesOf(node, s.children)
    ensures s.children != [] ==> Forests(OptionsOf(dp, node[s.id]), Selections(s), region)
  {
    hide Subs; hide Options; hide Selections; hide Represents;
    if s.children != [] {
      OptionsAreSelections(node[s.id], s, region);
    }
  }

  /** Selecting vertices and selecting the trees they represent go together. */
  lemma OptionsAreSelections(v: TreeVertex, t: Tree, region: set<TreeVertex>)
    requires Represents(v, t) && v.repr <= region
    ensures Forests(Options(v.descendants, t.threshold), Selections(t), region)
  {
    assert |v.descendants| == |t.children|;
    hide Forest; hide Represents; hide ChooseKoutOfN; hide Options; hide Selections; hide Select; hide SelectFrom;
    var options, selections := Options(v.descendants, t.threshold), Selections(t);
    assert |options| == |selections| by { SameLength(v.descendants, t); }
    forall i | 0 <= i < |options| ensures Forest(options[i], selections[i], region) {
      SameLength(v.descendants, t);
      OptionsAt(v.descendants, t.threshold, i);
      SelectionAt(t, i);
      SelectedForest(v, t, ChooseKoutOfN(|t.children|, t.threshold)[i], region);
    }
  }

  lemma SameLength(vs: seq<TreeVertex>, t: Tree)
    requires |vs| == |t.children|
    ensures |Options(vs, t.threshold)| == |Selections(t)| == |ChooseKoutOfN(|vs|, t.threshold)|
  {
    hide ChooseKoutOfN;
  }

  lemma SelectedForest(v: TreeVertex, t: Tree, idx: seq<nat>, region: set<TreeVertex>)
    requires Represents(v, t) && v.repr <= region && |v.descendants| == |t.children| && Increasing(idx, 0, |t.children|)
    ensures Forest(SelectFrom(v.descendants, idx), Select(t, idx), region)
  {
    hide Represents; hide TreeVertex.Valid;
    forall j | 0 <= j < |idx|
      ensures var c := v.descendants[idx[j]]; c in region && c.repr <= region && c.Valid() && c.value == Whole(t.children[idx[j]])
    {
      RepresentedDescendant(v, t, idx[j]);
    }
  }

  lemma ProgressStart(edges: Edges, node: Nodes, t: Tree, bound: nat)
    requires forall s | s in Subs(t) :: Labelled(node, s) && HoldsSub(edges, node, s)
    ensures Progress(edges, node, t, {}, map[], bound)
  {
    hide Subs; hide HoldsSub;
  }

  lemma SettledLabels(edges: Edges, node: Nodes, u: Tree, dp: DescendantPermutations)
    requires AllSettled(edges, node, u, dp)
    ensures forall r | r in Subs(u) :: Labelled(node, r)
  {
    hide Subs; hide HoldsSub; hide Recorded;
  }

  lemma Unvisited(edges: Edges, node: Nodes, t: Tree, s: Tree, done: set<string>, dp: DescendantPermutations, bound: nat)
    requires Progress(edges, node, t, done, dp, bound) && EdgesAre(edges, node) && s in Subs(t) && s.id !in done
    ensures Labelled(node, s) && HoldsSub(edges, node, s) && node[s.id] !in dp
    ensures node[s.id].descendants == DescendantsOf(edges, node, s) == VerticesOf(node, s.children)
  {
    hide Subs;
  }

  lemma OptionsAt(vs: seq<TreeVertex>, k: nat, i: nat)
    requires i < |ChooseKoutOfN(|vs|, k)|
    ensures var choice := ChooseKoutOfN(|vs|, k)[i];
            Increasing(choice, 0, |vs|) && i < |Options(vs, k)| && Options(vs, k)[i] == SelectFrom(vs, choice)
  {
    hide ChooseKoutOfN;
    ChooseExact(|vs|, k);
    assert ChooseKoutOfN(|vs|, k)[i] in ChooseKoutOfN(|vs|, k);
  }
}
