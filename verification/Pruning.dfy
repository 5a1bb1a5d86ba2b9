/**
 The pruning of `common/graph/perm.go`, which bounds how many combinations of children a vertex has,
 and what it costs: which sets of leaves the permutations of a pruned tree no longer cover.
 */
module Pruning {
  import opened Choose
  import opened Permutations
  import opened ThresholdFormula

  /** Child j of `u` is a pruning of child `f[j]` of `t`. */
  ghost predicate PrunesChildren(t: Tree, u: Tree, bound: nat, f: seq<nat>)
    decreases u, 0
  {
    && |f| == |u.children| && Increasing(f, 0, |t.children|)
    && forall j | 0 <= j < |f| :: Prunes(t.children[f[j]], u.children[j], bound)
  }

  /**
   `u` is `t` with children removed: no vertex combines its children in more than `bound` ways, and
   none has fallen below its threshold or lost its last child on the way. A vertex lost a child only
   while it had more combinations than that.
   */
  ghost predicate Prunes(t: Tree, u: Tree, bound: nat)
    decreases u, 1
  {
    && u.id == t.id && u.data == t.data && u.threshold == t.threshold
    && (u.children == [] <==> t.children == [])
    && (u.children != [] ==> !CombinationsExceed(|u.children|, u.threshold, bound))
    && (t.threshold <= |t.children| ==> u.threshold <= |u.children|)
    && (|u.children| < |t.children| ==> CombinationsExceed(|u.children| + 1, u.threshold, bound))
    && exists f :: PrunesChildren(t, u, bound, f)
  }

  function Compose(f: seq<nat>, idx: seq<nat>): seq<nat>
    requires forall j | 0 <= j < |idx| :: idx[j] < |f|
  {
    seq(|idx|, j requires 0 <= j < |idx| => f[idx[j]])
  }

  /** Every permutation of a pruned tree is a permutation of the tree. */
  lemma {:induction false} PrunedPerm(t: Tree, u: Tree, bound: nat, p: Perm)
    requires Prunes(t, u, bound) && IsPerm(u, p)
    ensures IsPerm(t, p)
    decreases u
  {
    if u.children != [] {
      var f :| PrunesChildren(t, u, bound, f);
      var idx :| PicksChildren(u, p, idx);
      var both := Compose(f, idx);
      forall j | 0 <= j < |both| ensures IsPerm(t.children[both[j]], p.kids[j]) {
        PrunedPerm(t.children[f[idx[j]]], u.children[idx[j]], bound, p.kids[j]);
      }
      assert PicksChildren(t, p, both);
    }
  }

  /** With pruning, the leaves of every permutation still satisfy the original tree. */
  lemma PrunedPermSatisfies(t: Tree, u: Tree, bound: nat, p: Perm)
    requires Prunes(t, u, bound) && IsPerm(u, p)
    ensures Sat(t, LeafIds(p))
  {
    hide Satisfies; hide IsPerm; hide LeafIds; hide Prunes;
    PrunedPerm(t, u, bound, p);
    PermSatisfies(t, p, LeafIds(p));
    SatGrows(t, LeafIds(p), LeafIds(p), true);
  }

  lemma {:induction false} PrunedIds(t: Tree, u: Tree, bound: nat)
    requires Prunes(t, u, bound)
    ensures Ids(u) <= Ids(t)
    decreases u
  {
    var f :| PrunesChildren(t, u, bound, f);
    forall x | x in Ids(u) ensures x in Ids(t) {
      if x != u.id {
        var c :| c in u.children && x in Ids(c);
        var j :| 0 <= j < |u.children| && u.children[j] == c;
        PrunedIds(t.children[f[j]], c, bound);
        ChildIds(t, f[j]);
      }
    }
  }

  lemma {:induction false} PrunedUnique(t: Tree, u: Tree, bound: nat)
    requires UniqueIds(t) && Prunes(t, u, bound)
    ensures UniqueIds(u)
    decreases u
  {
    var f :| PrunesChildren(t, u, bound, f);
    forall j | 0 <= j < |f| ensures UniqueIds(u.children[j]) && Ids(u.children[j]) <= Ids(t.children[f[j]]) {
      PrunedUnique(t.children[f[j]], u.children[j], bound);
      PrunedIds(t.children[f[j]], u.children[j], bound);
    }
  }

  function Without(f: seq<nat>, i: nat): seq<nat>
    requires i < |f|
  {
    f[..i] + f[i + 1..]
  }

  lemma WithoutIncreasing(f: seq<nat>, i: nat, n: nat)
    requires i < |f| && Increasing(f, 0, n)
    ensures Increasing(Without(f, i), 0, n)
  {
    var g := Without(f, i);
    assert forall a | 0 <= a < |g| :: g[a] == if a < i then f[a] else f[a + 1];
  }

  /** With a bound of at least one, children are removed only above the threshold. */
  lemma ExceedsAboveThreshold(n: nat, k: nat, bound: nat)
    requires bound >= 1 && CombinationsExceed(n, k, bound)
    ensures 1 <= k < n
  {
    BinomialAll(k);
  }

  /** `kept` are the elements of `all` with the given indices. */
  predicate KeptAre<T(==)>(kept: seq<T>, all: seq<T>, f: seq<nat>) {
    |f| == |kept| && Increasing(f, 0, |all|) && forall j | 0 <= j < |f| :: kept[j] == all[f[j]]
  }

  /** How many children remain of `before`, once there are not too many combinations of them. */
  predicate Trimmed(before: nat, after: nat, threshold: nat, bound: nat) {
    && !CombinationsExceed(after, threshold, bound)
    && (threshold <= before ==> threshold <= after)
    && (after < before ==> CombinationsExceed(after + 1, threshold, bound))
    && (before <= threshold ==> after == before)
    && (after == 0 ==> before == 0)
  }

  lemma RemoveVictim<T>(kept: seq<T>, all: seq<T>, f: seq<nat>, victim: nat)
    requires KeptAre(kept, all, f) && victim < |kept|
    ensures KeptAre(kept[..victim] + kept[victim + 1..], all, Without(f, victim))
  {
    WithoutIncreasing(f, victim, |all|);
    hide Increasing;
  }

  lemma PrunedVertex(t: Tree, u: Tree, bound: nat, kept: seq<Tree>, f: seq<nat>)
    requires u.id == t.id && u.data == t.data && u.threshold == t.threshold
    requires KeptAre(kept, t.children, f) && |u.children| == |kept|
    requires forall j | 0 <= j < |kept| :: Prunes(kept[j], u.children[j], bound)
    requires Trimmed(|t.children|, |kept|, t.threshold, bound)
    ensures Prunes(t, u, bound)
  {
    hide CombinationsExceed;
    assert |f| > 0 ==> f[0] < |t.children|;
    assert PrunesChildren(t, u, bound, f);
  }

  // ---------------------------------------------------------------------------------------------
  // How many selections are left
  // ---------------------------------------------------------------------------------------------

  /** The tree and all trees below it. */
  function Subs(t: Tree): set<Tree> {
    {t} + set c, s | c in t.children && s in Subs(c) :: s
  }

  lemma SubCases(t: Tree, s: Tree) returns (i: nat)
    requires s in Subs(t) && s != t
    ensures i < |t.children| && s in Subs(t.children[i])
  {
    var c :| c in t.children && s in Subs(c);
    i :| i < |t.children| && t.children[i] == c;
  }

  lemma SubsOfChild(t: Tree, i: nat)
    requires i < |t.children|
    ensures Subs(t.children[i]) <= Subs(t)
  {
    assert t.children[i] in t.children;
  }

  lemma {:induction false} SubFacts(t: Tree, s: Tree)
    requires s in Subs(t) && UniqueIds(t)
    ensures Ids(s) <= Ids(t) && UniqueIds(s) && s.id in Ids(s)
    ensures s.children != [] ==> s.id in InnerIds(t)
    ensures Subs(s) <= Subs(t)
    decreases t
  {
    if s != t {
      var i := SubCases(t, s);
      SubFacts(t.children[i], s);
      ChildIds(t, i);
      SubsOfChild(t, i);
      assert t.children[i] in t.children;
    }
  }

  /** With unique ids, an id names one sub-tree. */
  lemma {:induction false} SubUnique(t: Tree, s: Tree, r: Tree)
    requires UniqueIds(t) && s in Subs(t) && r in Subs(t) && s.id == r.id
    ensures s == r
    decreases t
  {
    hide Ids; hide Subs;
    if s != t {
      var i := SubCases(t, s);
      SubFacts(t.children[i], s);
      if r != t {
        var j := SubCases(t, r);
        SubFacts(t.children[j], r);
        if i == j {
          SubUnique(t.children[i], s, r);
        }
      }
    } else if r != t {
      var j := SubCases(t, r);
      SubFacts(t.children[j], r);
    }
  }

  lemma SelfSub(t: Tree)
    ensures t in Subs(t)
  {
  }

  /** No inner vertex has more selections of its children than `bound`. */
  ghost predicate AtMost(u: Tree, bound: nat) {
    forall r {:trigger r in Subs(u)} | r in Subs(u) && r.children != [] :: |ChooseKoutOfN(|r.children|, r.threshold)| <= bound
  }

  /** A vertex that lost children had, with one more than it has left, more selections than `bound`. */
  ghost predicate OnlyWhileAbove(t: Tree, u: Tree, bound: nat) {
    forall s, r {:trigger s in Subs(t), r in Subs(u)} | s in Subs(t) && r in Subs(u) && s.id == r.id && |r.children| < |s.children| ::
      |ChooseKoutOfN(|r.children| + 1, r.threshold)| > bound
  }

  /** Every vertex that is left is a pruning of the vertex it was. */
  lemma {:induction false} PrunedSub(t: Tree, u: Tree, bound: nat, r: Tree) returns (s: Tree)
    requires Prunes(t, u, bound) && r in Subs(u)
    ensures s in Subs(t) && Prunes(s, r, bound)
    decreases u
  {
    if r == u {
      s := t;
    } else {
      var f :| PrunesChildren(t, u, bound, f);
      var j := SubCases(u, r);
      s := PrunedSub(t.children[f[j]], u.children[j], bound, r);
      SubsOfChild(t, f[j]);
    }
  }

  lemma PrunedCount(s: Tree, r: Tree, bound: nat)
    requires Prunes(s, r, bound)
    ensures s.id == r.id
    ensures r.children != [] ==> |ChooseKoutOfN(|r.children|, r.threshold)| <= bound
    ensures |r.children| < |s.children| ==> |ChooseKoutOfN(|r.children| + 1, r.threshold)| > bound
  {
    hide ChooseKoutOfN; hide PrunesChildren;
    ExceedExactly(|r.children|, r.threshold, bound);
    ExceedExactly(|r.children| + 1, r.threshold, bound);
  }

  /** In a pruned tree no vertex has more selections than the bound, and none lost more children than it took. */
  lemma PrunedCounts(t: Tree, u: Tree, bound: nat)
    requires UniqueIds(t) && Prunes(t, u, bound)
    ensures AtMost(u, bound) && OnlyWhileAbove(t, u, bound)
  {
    hide ChooseKoutOfN; hide Prunes; hide Subs; hide UniqueIds;
    forall r | r in Subs(u) && r.children != [] ensures |ChooseKoutOfN(|r.children|, r.threshold)| <= bound {
      var s := PrunedSub(t, u, bound, r);
      PrunedCount(s, r, bound);
    }
    forall s, r | s in Subs(t) && r in Subs(u) && s.id == r.id && |r.children| < |s.children|
      ensures |ChooseKoutOfN(|r.children| + 1, r.threshold)| > bound
    {
      var s' := PrunedSub(t, u, bound, r);
      PrunedCount(s', r, bound);
      SubUnique(t, s, s');
    }
  }

  // ---------------------------------------------------------------------------------------------
  // When nothing is removed
  // ---------------------------------------------------------------------------------------------

  /** No vertex combines its children in more than `bound` ways. */
  predicate WithinBound(t: Tree, bound: nat) {
    && (t.children != [] ==> !CombinationsExceed(|t.children|, t.threshold, bound))
    && forall i | 0 <= i < |t.children| :: WithinBound(t.children[i], bound)
  }

  /** A tree is within the bound exactly when no inner vertex has more selections of its children. */
  lemma {:induction false} WithinExactly(t: Tree, bound: nat)
    ensures WithinBound(t, bound) <==> AtMost(t, bound)
    decreases t
  {
    hide ChooseKoutOfN; hide CombinationsExceed;
    ExceedExactly(|t.children|, t.threshold, bound);
    forall i | 0 <= i < |t.children| ensures WithinBound(t.children[i], bound) <==> AtMost(t.children[i], bound) {
      WithinExactly(t.children[i], bound);
    }
    hide Subs;
    if AtMost(t, bound) {
      SelfSub(t);
      forall i | 0 <= i < |t.children| ensures AtMost(t.children[i], bound) {
        SubsOfChild(t, i);
      }
    }
    if WithinBound(t, bound) {
      forall r | r in Subs(t) && r.children != [] ensures |ChooseKoutOfN(|r.children|, r.threshold)| <= bound {
        if r != t {
          var i := SubCases(t, r);
          assert AtMost(t.children[i], bound);
        }
      }
    }
  }

  lemma AllIndices(f: seq<nat>, n: nat)
    requires Increasing(f, 0, n) && |f| == n
    ensures forall i | 0 <= i < n :: f[i] == i
  {
    var all := seq(n, i => i);
    assert forall k | 0 <= k < |f| :: f[k] == all[f[k]];
    SameChoice(f, all, n);
  }

  lemma NothingRemoved(t: Tree, u: Tree, bound: nat)
    requires Prunes(t, u, bound) && (t.children != [] ==> !CombinationsExceed(|t.children|, t.threshold, bound))
    ensures |u.children| == |t.children|
  {
    hide PrunesChildren;
    var f :| PrunesChildren(t, u, bound, f);
    FewerChildren(t, u, bound, f);
    if |u.children| < |t.children| {
      BinomialGrows(|u.children| + 1, t.threshold, |t.children|);
    }
  }

  lemma FewerChildren(t: Tree, u: Tree, bound: nat, f: seq<nat>)
    requires PrunesChildren(t, u, bound, f)
    ensures |u.children| <= |t.children|
  {
    IncreasingLength(f, 0, |t.children|);
  }

  /** Pruning leaves a tree as it is exactly when the tree is within the bound. */
  lemma {:induction false} PrunedIsSame(t: Tree, u: Tree, bound: nat)
    requires Prunes(t, u, bound)
    ensures u == t <==> WithinBound(t, bound)
    decreases t
  {
    var f :| PrunesChildren(t, u, bound, f);
    if u == t || WithinBound(t, bound) {
      if WithinBound(t, bound) {
        NothingRemoved(t, u, bound);
      }
      AllIndices(f, |t.children|);
      forall i | 0 <= i < |t.children| ensures u.children[i] == t.children[i] <==> WithinBound(t.children[i], bound) {
        PrunedIsSame(t.children[i], u.children[i], bound);
      }
      if WithinBound(t, bound) {
        assert u.children == t.children;
      }
    }
  }

  // ---------------------------------------------------------------------------------------------
  // What removing children costs
  // ---------------------------------------------------------------------------------------------

  /** Every inner vertex asks for at least one and at most all of its children. */
  predicate Sensible(t: Tree) {
    && (t.children != [] ==> 1 <= t.threshold <= |t.children|)
    && forall i | 0 <= i < |t.children| :: Sensible(t.children[i])
  }

  lemma {:induction false} SensibleIsPositive(t: Tree)
    requires Sensible(t)
    ensures PositiveThresholds(t)
    decreases t
  {
    forall i | 0 <= i < |t.children| ensures PositiveThresholds(t.children[i]) {
      SensibleIsPositive(t.children[i]);
    }
  }

  lemma {:induction false} SensibleIsPossible(t: Tree, all: set<string>)
    requires Sensible(t) && Ids(t) <= all
    ensures Satisfies(t, all, true)
    decreases t
  {
    assert t.id in Ids(t);
    if t.children != [] {
      var idx := seq(t.threshold, j => j);
      forall j | 0 <= j < |idx| ensures Satisfies(t.children[idx[j]], all, true) {
        ChildIds(t, j);
        SensibleIsPossible(t.children[j], all);
      }
      CountAtLeast(t.children, all, true, idx);
    }
  }

  lemma {:induction false} MissingIndex(f: seq<nat>, n: nat) returns (c: nat)
    requires Increasing(f, 0, n) && |f| < n
    ensures c < n && c !in f
    decreases n
  {
    if f != [] && f[|f| - 1] == n - 1 {
      c := MissingIndex(f[..|f| - 1], n - 1);
      assert f == f[..|f| - 1] + [n - 1];
    } else {
      c := n - 1;
    }
  }

  lemma SameChild(t: Tree, i: nat, j: nat)
    requires UniqueIds(t) && i < |t.children| && j < |t.children| && t.children[i].id == t.children[j].id
    ensures i == j
  {
    assert t.children[i].id in Ids(t.children[i]) && t.children[j].id in Ids(t.children[j]);
  }

  /** The child of the pruned tree below which a given kid of a permutation sits. */
  lemma KidOfPruned(t: Tree, u: Tree, bound: nat, f: seq<nat>, p: Perm, at: nat, c: nat) returns (j: nat)
    requires UniqueIds(t) && PrunesChildren(t, u, bound, f) && u.children != [] && IsPerm(u, p)
    requires at < |p.kids| && c < |t.children| && p.kids[at].id == t.children[c].id
    ensures j < |f| && f[j] == c && IsPerm(u.children[j], p.kids[at])
  {
    hide Ids; hide UniqueIds;
    var idx :| PicksChildren(u, p, idx);
    j := idx[at];
    PermId(u.children[j], p.kids[at]);
    assert u.children[j].id == t.children[f[j]].id by { PrunedId(t.children[f[j]], u.children[j], bound); }
    SameChild(t, f[j], c);
  }

  /** Whatever is removed, some permutation of the tree is lost. */
  lemma {:induction false} LostPermutation(t: Tree, u: Tree, bound: nat, all: set<string>) returns (p: Perm)
    requires UniqueIds(t) && Sensible(t) && Ids(t) <= all && Prunes(t, u, bound) && u != t
    ensures IsPerm(t, p) && !IsPerm(u, p)
    decreases t
  {
    var f :| PrunesChildren(t, u, bound, f);
    FewerChildren(t, u, bound, f);
    SensibleIsPossible(t, all);
    assert t.children != [] by { LeavesStay(t, u, bound); }
    var c: nat, inner: Perm;
    if |f| < |t.children| {
      c := MissingIndex(f, |t.children|);
      ChildIds(t, c);
      SensibleIsPossible(t.children[c], all);
      inner := SatHasPerm(t.children[c], all);
    } else {
      AllIndices(f, |t.children|);
      c := DifferentChild(t, u);
      ChildIds(t, c);
      SensibleIsPossible(t.children[c], all);
      inner := LostPermutation(t.children[c], u.children[c], bound, all);
    }
    hide Satisfies; hide PicksChildren; hide Ids; hide Prunes; hide PrunesChildren;
    assert inner.id == t.children[c].id by { PermId(t.children[c], inner); }
    var q, idx, at := PermThrough(t, all, c, inner);
    p := q;
    if IsPerm(u, p) {
      var j := KidOfPruned(t, u, bound, f, p, at, c);
      assert false;
    }
  }

  lemma PrunedId(t: Tree, u: Tree, bound: nat)
    requires Prunes(t, u, bound)
    ensures u.id == t.id
  {
  }

  lemma PermId(t: Tree, p: Perm)
    requires IsPerm(t, p)
    ensures p.id == t.id
  {
  }

  lemma LeavesStay(t: Tree, u: Tree, bound: nat)
    requires Prunes(t, u, bound) && u != t
    ensures t.children != [] && u.children != []
  {
    hide PrunesChildren;
  }

  lemma DifferentChild(t: Tree, u: Tree) returns (c: nat)
    requires u != t && u.id == t.id && u.data == t.data && u.threshold == t.threshold && |u.children| == |t.children|
    ensures c < |t.children| && u.children[c] != t.children[c]
  {
    assert u.children != t.children;
    c :| c < |t.children| && u.children[c] != t.children[c];
  }

  /** The given permutations are the ways to satisfy the formula of the tree. */
  ghost predicate Decide(values: seq<Perm>, t: Tree) {
    forall leaves {:trigger Sat(t, leaves)} :: Sat(t, leaves) <==> exists p :: p in values && LeafIds(p) <= leaves
  }

  /** Within the bound, the permutations of the pruned tree decide the formula exactly when those of the tree do. */
  lemma DecideWithinBound(t: Tree, u: Tree, bound: nat, values: seq<Perm>)
    requires UniqueIds(t) && Prunes(t, u, bound) && WithinBound(t, bound) && forall p :: p in values <==> IsPerm(u, p)
    ensures u == t && (Decide(values, t) <==> Demanding(t, Ids(t)))
  {
    hide Ids; hide LeafIds; hide Sat; hide IsPerm; hide Demanding; hide UniqueIds; hide Prunes; hide WithinBound;
    PrunedIsSame(t, u, bound);
    DecideExactlyWhenDemanding(t);
    if PermutationsDecide(t) {
      forall leaves ensures Sat(t, leaves) <==> exists p :: p in values && LeafIds(p) <= leaves {
        SameWitnesses(t, values, leaves);
      }
    } else {
      var leaves :| !(Sat(t, leaves) <==> exists p :: IsPerm(t, p) && LeafIds(p) <= leaves);
      SameWitnesses(t, values, leaves);
    }
  }

  lemma SameWitnesses(t: Tree, values: seq<Perm>, leaves: set<string>)
    requires forall p :: p in values <==> IsPerm(t, p)
    ensures (exists p :: p in values && LeafIds(p) <= leaves) <==> exists p :: IsPerm(t, p) && LeafIds(p) <= leaves
  {
    hide IsPerm; hide LeafIds;
    if p :| p in values && LeafIds(p) <= leaves {
      assert IsPerm(t, p);
    }
    if p :| IsPerm(t, p) && LeafIds(p) <= leaves {
      assert p in values;
    }
  }

  /** In a tree with sensible thresholds, the permutations of the pruned tree decide the formula exactly when nothing had to be removed. */
  lemma DecideExactlyWithinBound(t: Tree, u: Tree, bound: nat, values: seq<Perm>)
    requires UniqueIds(t) && Sensible(t) && Prunes(t, u, bound) && forall p :: p in values <==> IsPerm(u, p)
    ensures Decide(values, t) <==> WithinBound(t, bound)
  {
    hide Ids; hide LeafIds; hide Satisfies; hide IsPerm; hide Demanding; hide UniqueIds; hide Prunes; hide WithinBound; hide Sensible;
    if WithinBound(t, bound) {
      SensibleIsPositive(t);
      PositiveIsDemanding(t, Ids(t));
      DecideWithinBound(t, u, bound, values);
    } else {
      PrunedIsSame(t, u, bound);
      var p := LostPermutation(t, u, bound, Ids(t));
      PermSatisfies(t, p, LeafIds(p));
      SatGrows(t, LeafIds(p), LeafIds(p), true);
      forall q | q in values ensures !(LeafIds(q) <= LeafIds(p)) {
        PrunedPerm(t, u, bound, q);
        if LeafIds(q) <= LeafIds(p) {
          PermutationsAreMinimal(t, p, q);
        }
      }
      assert !(Sat(t, LeafIds(p)) <==> exists q :: q in values && LeafIds(q) <= LeafIds(p));
    }
  }
}
