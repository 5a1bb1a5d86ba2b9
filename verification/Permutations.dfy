/**
 `common/graph/perm.go` and `tree.go`: expanding a tree of thresholds into all sub-trees that keep
 threshold-many children at every inner vertex.
 */
module Permutations {
  import opened Wrappers
  import opened Choose

  /** A vertex with the sub-trees below it. */
  datatype Tree = Tree(id: string, data: int, threshold: nat, children: seq<Tree>)

  /** A vertex of a permutation; permutations carry no thresholds. */
  datatype Perm = Perm(id: string, data: int, kids: seq<Perm>)

  // ---------------------------------------------------------------------------------------------
  // The recursive definition
  // ---------------------------------------------------------------------------------------------

  /** A choice of threshold-many children of an inner vertex, as increasing indices. */
  predicate IsChoice(t: Tree, idx: seq<nat>) {
    |idx| == t.threshold && Increasing(idx, 0, |t.children|)
  }

  /** The permutation's children are permutations of the chosen children. */
  ghost predicate PicksChildren(t: Tree, p: Perm, idx: seq<nat>)
    decreases t, 0
  {
    && IsChoice(t, idx)
    && |p.kids| == |idx|
    && forall j | 0 <= j < |idx| :: IsPerm(t.children[idx[j]], p.kids[j])
  }

  /** `p` keeps threshold-many children at the root of `t` if it has any, and so on below. */
  ghost predicate IsPerm(t: Tree, p: Perm)
    decreases t, 1
  {
    && p.id == t.id && p.data == t.data
    && if t.children == [] then p.kids == [] else exists idx :: PicksChildren(t, p, idx)
  }

  // ---------------------------------------------------------------------------------------------
  // Trees
  // ---------------------------------------------------------------------------------------------

  function Ids(t: Tree): set<string> {
    {t.id} + set c, x | c in t.children && x in Ids(c) :: x
  }

  /** No two vertices have the same id. */
  predicate UniqueIds(t: Tree) {
    && (forall i | 0 <= i < |t.children| :: t.id !in Ids(t.children[i]) && UniqueIds(t.children[i]))
    && (forall i, j | 0 <= i < j < |t.children| :: Ids(t.children[i]) !! Ids(t.children[j]))
  }

  function InnerIds(t: Tree): set<string> {
    (if t.children == [] then {} else {t.id}) + set c, x | c in t.children && x in InnerIds(c) :: x
  }

  /** The whole tree as a permutation that has chosen nothing yet. */
  function Whole(t: Tree): Perm {
    Perm(t.id, t.data, Wholes(t.children))
  }

  function Wholes(ts: seq<Tree>): seq<Perm> {
    seq(|ts|, i requires 0 <= i < |ts| => Whole(ts[i]))
  }

  /** `Find` */
  function Find(p: Perm, id: string): Option<Perm>
    decreases p, 1
  {
    if p.id == id then Some(p) else FindAny(p.kids, id)
  }

  function FindAny(ps: seq<Perm>, id: string): Option<Perm>
    decreases ps, 0
  {
    if ps == [] then None
    else
      var r := Find(ps[0], id);
      if r.Some? then r else FindAny(ps[1..], id)
  }

  /** `Exists` */
  predicate Exists(p: Perm, id: string) {
    Find(p, id).Some?
  }

  /** `replace` */
  function Replace(p: Perm, id: string, kids: seq<Perm>): Perm {
    if p.id == id then p.(kids := kids)
    else p.(kids := seq(|p.kids|, i requires 0 <= i < |p.kids| => Replace(p.kids[i], id, kids)))
  }

  lemma {:induction false} FindAnyExact(ps: seq<Perm>, id: string)
    ensures FindAny(ps, id).Some? <==> exists i | 0 <= i < |ps| :: Exists(ps[i], id)
    decreases |ps|
  {
    if ps != [] {
      FindAnyExact(ps[1..], id);
      if FindAny(ps[1..], id).Some? {
        var i :| 0 <= i < |ps[1..]| && Exists(ps[1..][i], id);
        assert Exists(ps[i + 1], id);
      }
      if i :| 0 <= i < |ps| && Exists(ps[i], id) {
        assert i == 0 || Exists(ps[1..][i - 1], id);
      }
    }
  }

  lemma ExistsUnfold(p: Perm, id: string)
    ensures Exists(p, id) <==> p.id == id || exists i | 0 <= i < |p.kids| :: Exists(p.kids[i], id)
  {
    FindAnyExact(p.kids, id);
  }

  // ---------------------------------------------------------------------------------------------
  // Partial permutations
  // ---------------------------------------------------------------------------------------------

  ghost predicate PartlyPicks(t: Tree, p: Perm, done: set<string>, idx: seq<nat>)
    decreases t, 0
  {
    && IsChoice(t, idx)
    && |p.kids| == |idx|
    && forall j | 0 <= j < |idx| :: IsPartial(t.children[idx[j]], p.kids[j], done)
  }

  /** `p` has chosen at the inner vertices in `done` and keeps everything below the others. */
  ghost predicate IsPartial(t: Tree, p: Perm, done: set<string>)
    decreases t, 1
  {
    && p.id == t.id && p.data == t.data
    && if t.children != [] && t.id in done then exists idx :: PartlyPicks(t, p, done, idx) else p == Whole(t)
  }

  lemma {:induction false} PartialWhenAllDone(t: Tree, p: Perm, done: set<string>)
    requires InnerIds(t) <= done
    ensures IsPartial(t, p, done) <==> IsPerm(t, p)
    decreases t
  {
    if t.children == [] {
      assert Whole(t).kids == [];
    } else {
      assert t.id in InnerIds(t);
      forall idx ensures PartlyPicks(t, p, done, idx) <==> PicksChildren(t, p, idx) {
        if IsChoice(t, idx) && |p.kids| == |idx| {
          forall j | 0 <= j < |idx|
            ensures IsPartial(t.children[idx[j]], p.kids[j], done) <==> IsPerm(t.children[idx[j]], p.kids[j])
          {
            assert t.children[idx[j]] in t.children;
            assert InnerIds(t.children[idx[j]]) <= InnerIds(t);
            PartialWhenAllDone(t.children[idx[j]], p.kids[j], done);
          }
        }
      }
    }
  }

  // ---------------------------------------------------------------------------------------------
  // Where a vertex sits
  // ---------------------------------------------------------------------------------------------

  /** `v` is a vertex of `t` all of whose ancestors in `t` are in `done`. */
  ghost predicate Frontier(t: Tree, v: Tree, done: set<string>) {
    v == t || (t.id in done && exists i | 0 <= i < |t.children| :: Frontier(t.children[i], v, done))
  }

  lemma ChildIds(t: Tree, i: nat)
    requires i < |t.children|
    ensures Ids(t.children[i]) <= Ids(t) && t.id in Ids(t)
  {
    assert t.children[i] in t.children;
  }

  lemma {:induction false} FrontierIds(t: Tree, v: Tree, done: set<string>)
    requires Frontier(t, v, done)
    ensures Ids(v) <= Ids(t) && v.id in Ids(v)
    decreases t
  {
    if v != t {
      var i :| 0 <= i < |t.children| && Frontier(t.children[i], v, done);
      FrontierIds(t.children[i], v, done);
      ChildIds(t, i);
    }
  }

  lemma {:induction false} FrontierGrows(t: Tree, v: Tree, done: set<string>, more: set<string>)
    requires Frontier(t, v, done) && done <= more
    ensures Frontier(t, v, more)
    decreases t
  {
    if v != t {
      var i :| 0 <= i < |t.children| && Frontier(t.children[i], v, done);
      FrontierGrows(t.children[i], v, done, more);
    }
  }

  lemma {:induction false} FrontierChild(t: Tree, v: Tree, done: set<string>, k: nat)
    requires Frontier(t, v, done) && k < |v.children| && v.id in done
    ensures Frontier(t, v.children[k], done)
    decreases t
  {
    if v == t {
      assert Frontier(t.children[k], v.children[k], done);
    } else {
      var i :| 0 <= i < |t.children| && Frontier(t.children[i], v, done);
      FrontierChild(t.children[i], v, done, k);
    }
  }

  /** The id of a vertex tells whether it is the root, and otherwise below which child it sits. */
  lemma FrontierInto(t: Tree, v: Tree, done: set<string>)
    requires UniqueIds(t) && Frontier(t, v, done)
    ensures t.id == v.id <==> t == v
    ensures t != v ==> t.id in done
    ensures forall i | 0 <= i < |t.children| && v.id in Ids(t.children[i]) :: Frontier(t.children[i], v, done)
  {
    FrontierIds(t, v, done);
    if v == t {
    } else {
      var k :| 0 <= k < |t.children| && Frontier(t.children[k], v, done);
      FrontierIds(t.children[k], v, done);
      assert forall i | 0 <= i < |t.children| && i != k :: Ids(t.children[i]) !! Ids(t.children[k]);
      assert forall i | 0 <= i < |t.children| && v.id in Ids(t.children[i]) :: i == k;
    }
  }

  lemma {:induction false} WholeIds(t: Tree, x: string)
    ensures Exists(Whole(t), x) <==> x in Ids(t)
    decreases t
  {
    ExistsUnfold(Whole(t), x);
    assert Whole(t).kids == Wholes(t.children);
    forall i | 0 <= i < |t.children| ensures Exists(Whole(t).kids[i], x) <==> x in Ids(t.children[i]) {
      WholeIds(t.children[i], x);
    }
    if x in Ids(t) && x != t.id {
      var c :| c in t.children && x in Ids(c);
      var i :| 0 <= i < |t.children| && t.children[i] == c;
      assert Exists(Whole(t).kids[i], x);
    }
    if i :| 0 <= i < |Whole(t).kids| && Exists(Whole(t).kids[i], x) {
      ChildIds(t, i);
    }
  }

  lemma {:induction false} PartialIds(t: Tree, p: Perm, done: set<string>, x: string)
    requires IsPartial(t, p, done) && Exists(p, x)
    ensures x in Ids(t)
    decreases t
  {
    if t.children != [] && t.id in done {
      var idx :| PartlyPicks(t, p, done, idx);
      ExistsUnfold(p, x);
      if x != t.id {
        var j :| 0 <= j < |p.kids| && Exists(p.kids[j], x);
        PartialIds(t.children[idx[j]], p.kids[j], done, x);
        ChildIds(t, idx[j]);
      }
    } else {
      WholeIds(t, x);
    }
  }

  // ---------------------------------------------------------------------------------------------
  // Expanding one vertex
  // ---------------------------------------------------------------------------------------------

  /** `selectDescendants` */
  function Select(v: Tree, idx: seq<nat>): seq<Perm>
    requires Increasing(idx, 0, |v.children|)
  {
    seq(|idx|, j requires 0 <= j < |idx| => Whole(v.children[idx[j]]))
  }

  lemma {:induction false} ReplaceAbsent(p: Perm, x: string, kids: seq<Perm>)
    requires !Exists(p, x)
    ensures Replace(p, x, kids) == p
    decreases p
  {
    ExistsUnfold(p, x);
    forall i | 0 <= i < |p.kids| ensures Replace(p.kids[i], x, kids) == p.kids[i] {
      ReplaceAbsent(p.kids[i], x, kids);
    }
    assert Replace(p, x, kids).kids == p.kids;
  }

  /** Where a vertex does not occur, it does not matter whether it has been expanded. */
  lemma {:induction false} AbsentVertex(t: Tree, p: Perm, done: set<string>, x: string)
    requires !Exists(p, x)
    ensures IsPartial(t, p, done) <==> IsPartial(t, p, done + {x})
    decreases t
  {
    ExistsUnfold(p, x);
    if p.id == t.id && t.children != [] && t.id in done {
      forall idx ensures PartlyPicks(t, p, done, idx) <==> PartlyPicks(t, p, done + {x}, idx) {
        if IsChoice(t, idx) && |p.kids| == |idx| {
          forall j | 0 <= j < |idx|
            ensures IsPartial(t.children[idx[j]], p.kids[j], done) <==> IsPartial(t.children[idx[j]], p.kids[j], done + {x})
          {
            AbsentVertex(t.children[idx[j]], p.kids[j], done, x);
          }
        }
      }
    }
  }

  /** What is assumed of the vertex that is to be expanded next. */
  ghost predicate Ready(t: Tree, v: Tree, done: set<string>) {
    UniqueIds(t) && Frontier(t, v, done) && Ids(v) !! done && v.children != []
  }

  lemma ReadyBelow(t: Tree, v: Tree, done: set<string>, i: nat)
    requires Ready(t, v, done) && i < |t.children| && v.id in Ids(t.children[i])
    ensures t.id in done && t != v && Ready(t.children[i], v, done)
  {
    hide Frontier;
    FrontierInto(t, v, done);
  }

  lemma SelectedArePartial(v: Tree, idx: seq<nat>, done: set<string>)
    requires UniqueIds(v) && IsChoice(v, idx) && Ids(v) !! done
    ensures forall j | 0 <= j < |idx| :: IsPartial(v.children[idx[j]], Select(v, idx)[j], done + {v.id})
  {
    forall j | 0 <= j < |idx| ensures IsPartial(v.children[idx[j]], Select(v, idx)[j], done + {v.id}) {
      var c := v.children[idx[j]];
      ChildIds(v, idx[j]);
      assert c.id in Ids(c);
    }
  }

  /** Replacing the children of `v` by a choice of them makes a partial permutation with `v` done. */
  lemma {:induction false} ExpandSound(t: Tree, v: Tree, p: Perm, done: set<string>, idx: seq<nat>)
    requires Ready(t, v, done) && IsPartial(t, p, done) && Exists(p, v.id) && IsChoice(v, idx)
    ensures IsPartial(t, Replace(p, v.id, Select(v, idx)), done + {v.id})
    decreases t
  {
    var q := Replace(p, v.id, Select(v, idx));
    FrontierInto(t, v, done);
    if t == v {
      SelectedArePartial(v, idx, done);
      assert PartlyPicks(t, q, done + {v.id}, idx);
    } else {
      assert t.children != [];
      var chosen :| PartlyPicks(t, p, done, chosen);
      forall j | 0 <= j < |chosen| ensures IsPartial(t.children[chosen[j]], q.kids[j], done + {v.id}) {
        var c, kid := t.children[chosen[j]], p.kids[j];
        if Exists(kid, v.id) {
          PartialIds(c, kid, done, v.id);
          ReadyBelow(t, v, done, chosen[j]);
          ExpandSound(c, v, kid, done, idx);
        } else {
          ReplaceAbsent(kid, v.id, Select(v, idx));
          AbsentVertex(c, kid, done, v.id);
        }
      }
      assert PartlyPicks(t, q, done + {v.id}, chosen);
    }
  }

  lemma UnselectedAreWhole(v: Tree, q: Perm, done: set<string>, idx: seq<nat>)
    requires UniqueIds(v) && Ids(v) !! done && PartlyPicks(v, q, done + {v.id}, idx)
    ensures q.kids == Select(v, idx)
  {
    forall j | 0 <= j < |idx| ensures q.kids[j] == Select(v, idx)[j] {
      ChildIds(v, idx[j]);
      assert v.children[idx[j]].id in Ids(v.children[idx[j]]);
    }
  }

  /** Every partial permutation with `v` done, if `v` occurs in it, comes from one with `v` not done by replacing. */
  lemma {:induction false} ExpandComplete(t: Tree, v: Tree, q: Perm, done: set<string>) returns (idx: seq<nat>)
    requires Ready(t, v, done) && IsPartial(t, q, done + {v.id}) && Exists(q, v.id)
    ensures IsChoice(v, idx)
    ensures var p := Replace(q, v.id, Wholes(v.children));
            IsPartial(t, p, done) && Exists(p, v.id) && Replace(p, v.id, Select(v, idx)) == q
    decreases t
  {
    FrontierInto(t, v, done);
    if t == v {
      idx := ExpandCompleteAtRoot(v, q, done);
    } else {
      var chosen, k := PickWith(t, q, done + {v.id}, v.id);
      hide IsPartial; hide PartlyPicks; hide Frontier; hide Ids; hide UniqueIds; hide Find; hide Increasing; hide Wholes; hide Replace; hide Select;
      PartialIds(t.children[chosen[k]], q.kids[k], done + {v.id}, v.id);
      ReadyBelow(t, v, done, chosen[k]);
      idx := ExpandComplete(t.children[chosen[k]], v, q.kids[k], done);
      forall j | 0 <= j < |chosen|
        ensures IsPartial(t.children[chosen[j]], Replace(q.kids[j], v.id, Wholes(v.children)), done)
        ensures Replace(Replace(q.kids[j], v.id, Wholes(v.children)), v.id, Select(v, idx)) == q.kids[j]
      {
        if j != k {
          OnlyOneKid(t, q, done + {v.id}, chosen, j, k, v.id);
          ReplaceAbsent(q.kids[j], v.id, Wholes(v.children));
          ReplaceAbsent(q.kids[j], v.id, Select(v, idx));
          AbsentVertex(t.children[chosen[j]], q.kids[j], done, v.id);
        }
      }
      GlueKids(t, v, q, done, chosen, k, idx);
    }
  }

  lemma PickWith(t: Tree, q: Perm, done: set<string>, x: string) returns (idx: seq<nat>, k: nat)
    requires t.children != [] && t.id in done && t.id != x && IsPartial(t, q, done) && Exists(q, x)
    ensures PartlyPicks(t, q, done, idx) && IsChoice(t, idx) && |q.kids| == |idx|
    ensures forall j | 0 <= j < |idx| :: IsPartial(t.children[idx[j]], q.kids[j], done)
    ensures k < |idx| && Exists(q.kids[k], x)
  {
    idx :| PartlyPicks(t, q, done, idx);
    ExistsUnfold(q, x);
    k :| 0 <= k < |q.kids| && Exists(q.kids[k], x);
  }

  lemma GlueKids(t: Tree, v: Tree, q: Perm, done: set<string>, chosen: seq<nat>, k: nat, idx: seq<nat>)
    requires t.children != [] && t.id in done && t.id != v.id && q.id == t.id && q.data == t.data
    requires IsChoice(t, chosen) && |q.kids| == |chosen| && k < |chosen| && IsChoice(v, idx)
    requires forall j | 0 <= j < |chosen| ::
               && IsPartial(t.children[chosen[j]], Replace(q.kids[j], v.id, Wholes(v.children)), done)
               && Replace(Replace(q.kids[j], v.id, Wholes(v.children)), v.id, Select(v, idx)) == q.kids[j]
    requires Exists(Replace(q.kids[k], v.id, Wholes(v.children)), v.id)
    ensures var p := Replace(q, v.id, Wholes(v.children));
            IsPartial(t, p, done) && Exists(p, v.id) && Replace(p, v.id, Select(v, idx)) == q
  {
    hide Find; hide Increasing; hide Wholes; hide Select;
    var p := Replace(q, v.id, Wholes(v.children));
    assert PartlyPicks(t, p, done, chosen);
    ExistsUnfold(p, v.id);
    assert Exists(p.kids[k], v.id);
    assert Replace(p, v.id, Select(v, idx)).kids == q.kids;
  }

  lemma ExpandCompleteAtRoot(v: Tree, q: Perm, done: set<string>) returns (idx: seq<nat>)
    requires UniqueIds(v) && Ids(v) !! done && v.children != [] && IsPartial(v, q, done + {v.id})
    ensures IsChoice(v, idx)
    ensures var p := Replace(q, v.id, Wholes(v.children));
            IsPartial(v, p, done) && Exists(p, v.id) && Replace(p, v.id, Select(v, idx)) == q
  {
    idx :| PartlyPicks(v, q, done + {v.id}, idx);
    UnselectedAreWhole(v, q, done, idx);
    assert v.id in Ids(v);
    assert Replace(q, v.id, Wholes(v.children)) == Whole(v);
  }

  /** An id occurs in at most one child of a permutation. */
  lemma OnlyOneKid(t: Tree, p: Perm, done: set<string>, idx: seq<nat>, j: nat, k: nat, x: string)
    requires UniqueIds(t) && PartlyPicks(t, p, done, idx) && j < |idx| && k < |idx| && j != k
    requires Exists(p.kids[k], x)
    ensures !Exists(p.kids[j], x)
  {
    PartialIds(t.children[idx[k]], p.kids[k], done, x);
    assert idx[j] != idx[k];
    if Exists(p.kids[j], x) {
      PartialIds(t.children[idx[j]], p.kids[j], done, x);
      assert false;
    }
  }

  /** The replaced children can be read off the result. */
  lemma {:induction false} FindReplaced(p: Perm, x: string, kids: seq<Perm>)
    requires Exists(p, x)
    ensures Exists(Replace(p, x, kids), x) && Find(Replace(p, x, kids), x).value.kids == kids
    decreases p, 1
  {
    if p.id != x {
      FindAnyReplaced(p.kids, Replace(p, x, kids).kids, x, kids);
    }
  }

  lemma {:induction false} FindAnyReplaced(ps: seq<Perm>, qs: seq<Perm>, x: string, kids: seq<Perm>)
    requires FindAny(ps, x).Some?
    requires |qs| == |ps| && forall i | 0 <= i < |ps| :: qs[i] == Replace(ps[i], x, kids)
    ensures FindAny(qs, x).Some? && FindAny(qs, x).value.kids == kids
    decreases ps, 0
  {
    if Exists(ps[0], x) {
      FindReplaced(ps[0], x, kids);
    } else {
      ReplaceAbsent(ps[0], x, kids);
      FindAnyReplaced(ps[1..], qs[1..], x, kids);
    }
  }

  /** Restoring all children of `v` undoes a replacement. */
  lemma {:induction false} RestoreWhole(t: Tree, v: Tree, p: Perm, done: set<string>, kids: seq<Perm>)
    requires Ready(t, v, done) && IsPartial(t, p, done) && Exists(p, v.id)
    ensures Replace(Replace(p, v.id, kids), v.id, Wholes(v.children)) == p
    decreases t
  {
    FrontierInto(t, v, done);
    var q := Replace(p, v.id, kids);
    var r := Replace(q, v.id, Wholes(v.children));
    if t == v {
      assert v.id in Ids(v);
    } else {
      assert t.children != [];
      var chosen :| PartlyPicks(t, p, done, chosen);
      forall j | 0 <= j < |p.kids| ensures r.kids[j] == p.kids[j] {
        if Exists(p.kids[j], v.id) {
          PartialIds(t.children[chosen[j]], p.kids[j], done, v.id);
          ReadyBelow(t, v, done, chosen[j]);
          RestoreWhole(t.children[chosen[j]], v, p.kids[j], done, kids);
        } else {
          ReplaceAbsent(p.kids[j], v.id, kids);
          ReplaceAbsent(p.kids[j], v.id, Wholes(v.children));
        }
      }
      assert r.kids == p.kids;
    }
  }

  // ---------------------------------------------------------------------------------------------
  // Expanding a list of permutations
  // ---------------------------------------------------------------------------------------------

  lemma DistinctConcat<T>(xs: seq<T>, ys: seq<T>)
    requires Distinct(xs) && Distinct(ys)
    requires forall x | x in xs :: x !in ys
    ensures Distinct(xs + ys)
  {
    var zs := xs + ys;
    forall i, j | 0 <= i < j < |zs| ensures zs[i] != zs[j] {
      if i < |xs| <= j {
        assert xs[i] in xs && ys[j - |xs|] in ys;
      }
    }
  }

  /** The permutations in which the vertex occurs, or those in which it does not. */
  function Keep(ps: seq<Perm>, id: string, occurs: bool): seq<Perm> {
    if ps == [] then []
    else
      var front, p := Keep(ps[..|ps| - 1], id, occurs), ps[|ps| - 1];
      if Exists(p, id) == occurs then front + [p] else front
  }

  lemma {:induction false} KeepExact(ps: seq<Perm>, id: string, occurs: bool)
    ensures forall p :: p in Keep(ps, id, occurs) <==> p in ps && Exists(p, id) == occurs
    ensures Distinct(ps) ==> Distinct(Keep(ps, id, occurs))
    decreases |ps|
  {
    hide Exists;
    if ps != [] {
      var front, last := ps[..|ps| - 1], ps[|ps| - 1];
      assert ps == front + [last];
      KeepExact(front, id, occurs);
    }
  }

  /** The entry of `descendantPermutations` for a vertex. */
  function Selections(v: Tree): seq<seq<Perm>> {
    ChooseExact(|v.children|, v.threshold);
    var choices := ChooseKoutOfN(|v.children|, v.threshold);
    assert forall i | 0 <= i < |choices| :: choices[i] in choices;
    seq(|choices|, i requires 0 <= i < |choices| => Select(v, choices[i]))
  }

  /** One permutation, with the vertex replaced in turn by each of the selections. */
  function ReplaceEach(p: Perm, id: string, sels: seq<seq<Perm>>): seq<Perm> {
    seq(|sels|, i requires 0 <= i < |sels| => Replace(p, id, sels[i]))
  }

  function ExpandAll(ps: seq<Perm>, id: string, sels: seq<seq<Perm>>): seq<Perm> {
    if ps == [] then [] else ExpandAll(ps[..|ps| - 1], id, sels) + ReplaceEach(ps[|ps| - 1], id, sels)
  }

  /** What one round of the loop of `permute` makes of the permutations. */
  function Expand(ps: seq<Perm>, v: Tree): seq<Perm> {
    Keep(ps, v.id, false) + ExpandAll(Keep(ps, v.id, true), v.id, Selections(v))
  }

  ghost predicate ComesFrom(q: Perm, ps: seq<Perm>, id: string, sels: seq<seq<Perm>>) {
    exists p, s :: p in ps && s in sels && q == Replace(p, id, s)
  }

  lemma {:induction false} ExpandAllExact(ps: seq<Perm>, id: string, sels: seq<seq<Perm>>)
    ensures forall q :: q in ExpandAll(ps, id, sels) <==> ComesFrom(q, ps, id, sels)
    decreases |ps|
  {
    hide Replace;
    if ps != [] {
      var front, last := ps[..|ps| - 1], ps[|ps| - 1];
      assert ps == front + [last];
      ExpandAllExact(front, id, sels);
      forall q ensures q in ReplaceEach(last, id, sels) <==> exists s :: s in sels && q == Replace(last, id, s) {
        if q in ReplaceEach(last, id, sels) {
          var i :| 0 <= i < |sels| && q == ReplaceEach(last, id, sels)[i];
          assert sels[i] in sels;
        }
        if s :| s in sels && q == Replace(last, id, s) {
          var i :| 0 <= i < |sels| && s == sels[i];
          assert q == ReplaceEach(last, id, sels)[i];
        }
      }
    }
  }

  /** Different permutations and different selections give different results. */
  ghost predicate InjectiveOn(ps: seq<Perm>, id: string, sels: seq<seq<Perm>>) {
    forall p, q, s, r {:trigger Replace(p, id, s), Replace(q, id, r)} |
      p in ps && q in ps && s in sels && r in sels && Replace(p, id, s) == Replace(q, id, r) :: p == q && s == r
  }

  lemma {:induction false} ExpandAllDistinct(ps: seq<Perm>, id: string, sels: seq<seq<Perm>>)
    requires Distinct(ps) && Distinct(sels) && InjectiveOn(ps, id, sels)
    ensures Distinct(ExpandAll(ps, id, sels))
    decreases |ps|
  {
    hide Replace;
    if ps != [] {
      var front, last := ps[..|ps| - 1], ps[|ps| - 1];
      assert ps == front + [last] && last in ps;
      assert forall p | p in front :: p in ps;
      ExpandAllDistinct(front, id, sels);
      ReplaceEachDistinct(last, ps, id, sels);
      ExpandAllExact(front, id, sels);
      forall q | q in ExpandAll(front, id, sels) ensures q !in ReplaceEach(last, id, sels) {
        var p, s :| p in front && s in sels && q == Replace(p, id, s);
        forall i | 0 <= i < |sels| ensures ReplaceEach(last, id, sels)[i] != q {
          assert sels[i] in sels;
        }
      }
      DistinctConcat(ExpandAll(front, id, sels), ReplaceEach(last, id, sels));
    }
  }

  lemma ReplaceEachDistinct(p: Perm, ps: seq<Perm>, id: string, sels: seq<seq<Perm>>)
    requires p in ps && Distinct(sels) && InjectiveOn(ps, id, sels)
    ensures Distinct(ReplaceEach(p, id, sels))
  {
    hide Replace;
    forall i, j | 0 <= i < j < |sels| ensures Replace(p, id, sels[i]) != Replace(p, id, sels[j]) {
      assert sels[i] in sels && sels[j] in sels;
    }
  }

  lemma SelectionAt(v: Tree, i: nat)
    requires i < |ChooseKoutOfN(|v.children|, v.threshold)|
    ensures var choice := ChooseKoutOfN(|v.children|, v.threshold)[i];
            IsChoice(v, choice) && i < |Selections(v)| && Selections(v)[i] == Select(v, choice)
  {
    hide ChooseKoutOfN; hide Select;
    ChooseExact(|v.children|, v.threshold);
    assert ChooseKoutOfN(|v.children|, v.threshold)[i] in ChooseKoutOfN(|v.children|, v.threshold);
  }

  lemma SelectionsLength(v: Tree)
    ensures |Selections(v)| == |ChooseKoutOfN(|v.children|, v.threshold)|
  {
    hide ChooseKoutOfN; hide Select;
  }

  /** The selections are those of all choices, and no two are the same. */
  lemma SelectionsExact(v: Tree)
    requires UniqueIds(v)
    ensures forall s :: s in Selections(v) <==> exists idx :: IsChoice(v, idx) && s == Select(v, idx)
    ensures Distinct(Selections(v))
  {
    hide ChooseKoutOfN; hide Ids; hide Selections; hide UniqueIds; hide Select; hide Increasing; hide LexSorted;
    ChooseExact(|v.children|, v.threshold);
    SelectionsLength(v);
    var choices, sels := ChooseKoutOfN(|v.children|, v.threshold), Selections(v);
    forall i | 0 <= i < |choices| ensures IsChoice(v, choices[i]) && sels[i] == Select(v, choices[i]) {
      SelectionAt(v, i);
    }
    forall i, j | 0 <= i < j < |sels| ensures sels[i] != sels[j] {
      LexSortedDistinct(choices, i, j);
      SelectInjective(v, choices[i], choices[j]);
    }
    forall s ensures s in sels <==> exists idx :: IsChoice(v, idx) && s == Select(v, idx) {
      if idx :| IsChoice(v, idx) && s == Select(v, idx) {
        var i :| 0 <= i < |choices| && choices[i] == idx;
        assert s == sels[i];
      }
    }
  }

  lemma SelectInjective(v: Tree, a: seq<nat>, b: seq<nat>)
    requires UniqueIds(v) && IsChoice(v, a) && IsChoice(v, b) && a != b
    ensures Select(v, a) != Select(v, b)
  {
    var j :| 0 <= j < |a| && a[j] != b[j];
    var c, d := v.children[a[j]], v.children[b[j]];
    assert c.id in Ids(c) && d.id in Ids(d) && Ids(c) !! Ids(d);
    assert Select(v, a)[j].id == c.id && Select(v, b)[j].id == d.id;
  }

  /** The list holds exactly the partial permutations, each once. */
  ghost predicate Enumerates(ps: seq<Perm>, t: Tree, done: set<string>) {
    Distinct(ps) && forall p :: p in ps <==> IsPartial(t, p, done)
  }

  lemma ReplaceInjective(t: Tree, v: Tree, ps: seq<Perm>, done: set<string>, sels: seq<seq<Perm>>)
    requires Ready(t, v, done) && forall p | p in ps :: IsPartial(t, p, done) && Exists(p, v.id)
    ensures InjectiveOn(ps, v.id, sels)
  {
    hide Ready; hide IsPartial; hide Replace; hide Find;
    forall p, q, s, r | p in ps && q in ps && s in sels && r in sels && Replace(p, v.id, s) == Replace(q, v.id, r)
      ensures p == q && s == r
    {
      RestoreWhole(t, v, p, done, s);
      RestoreWhole(t, v, q, done, r);
      FindReplaced(p, v.id, s);
      FindReplaced(q, v.id, r);
    }
  }

  /** One round of the loop turns the list of partial permutations into the one with the vertex done. */
  lemma ExpandExact(ps: seq<Perm>, t: Tree, v: Tree, done: set<string>)
    requires Ready(t, v, done) && Enumerates(ps, t, done)
    ensures Enumerates(Expand(ps, v), t, done + {v.id})
  {
    hide IsPartial; hide Replace; hide Find; hide Select; hide Frontier; hide Ids; hide UniqueIds; hide Selections; hide Increasing; hide Keep; hide ExpandAll;
    var without, with', sels := Keep(ps, v.id, false), Keep(ps, v.id, true), Selections(v);
    var expanded := ExpandAll(with', v.id, sels);
    KeepExact(ps, v.id, false);
    KeepExact(ps, v.id, true);
    assert UniqueIds(v) by { FrontierUnique(t, v, done); }
    SelectionsExact(v);
    ExpandAllExact(with', v.id, sels);
    ReplaceInjective(t, v, with', done, sels);
    ExpandAllDistinct(with', v.id, sels);
    forall q | q in expanded ensures Exists(q, v.id) && IsPartial(t, q, done + {v.id}) {
      var p, s :| p in with' && s in sels && q == Replace(p, v.id, s);
      var idx :| IsChoice(v, idx) && s == Select(v, idx);
      ExpandSound(t, v, p, done, idx);
      FindReplaced(p, v.id, s);
    }
    forall q | IsPartial(t, q, done + {v.id}) && Exists(q, v.id) ensures q in expanded {
      var idx := ExpandComplete(t, v, q, done);
      var p := Replace(q, v.id, Wholes(v.children));
      assert p in with' && Select(v, idx) in sels;
      assert ComesFrom(q, with', v.id, sels);
    }
    forall q | !Exists(q, v.id) ensures q in without <==> IsPartial(t, q, done + {v.id}) {
      AbsentVertex(t, q, done, v.id);
    }
    DistinctConcat(without, expanded);
  }

  lemma {:induction false} FrontierUnique(t: Tree, v: Tree, done: set<string>)
    requires UniqueIds(t) && Frontier(t, v, done)
    ensures UniqueIds(v)
    decreases t
  {
    if v != t {
      var i :| 0 <= i < |t.children| && Frontier(t.children[i], v, done);
      FrontierUnique(t.children[i], v, done);
    }
  }
}
