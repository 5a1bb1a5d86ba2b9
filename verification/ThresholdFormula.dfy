/**
 What permutations are for: the leaf sets of the permutations of a tree are the minimal ways to
 satisfy its thresholds.
 */
module ThresholdFormula {
  import opened Choose
  import opened Permutations

  // ---------------------------------------------------------------------------------------------
  // Satisfying sets
  // ---------------------------------------------------------------------------------------------

  /**
   The leaves satisfy the tree: a leaf is there, an inner vertex has threshold-many satisfied children.
   With `zeroIsLeaf`, an inner vertex that asks for no child counts as a leaf.
   */
  predicate Satisfies(t: Tree, leaves: set<string>, zeroIsLeaf: bool)
    decreases t, 1
  {
    if t.children == [] || (zeroIsLeaf && t.threshold == 0) then t.id in leaves
    else CountSat(t.children, leaves, zeroIsLeaf) >= t.threshold
  }

  function CountSat(ts: seq<Tree>, leaves: set<string>, zeroIsLeaf: bool): nat
    decreases ts, 0
  {
    if ts == [] then 0
    else CountSat(ts[..|ts| - 1], leaves, zeroIsLeaf) + (if Satisfies(ts[|ts| - 1], leaves, zeroIsLeaf) then 1 else 0)
  }

  /** The threshold formula of the tree. */
  predicate Sat(t: Tree, leaves: set<string>) {
    Satisfies(t, leaves, false)
  }

  function LeafIds(p: Perm): set<string> {
    if p.kids == [] then {p.id} else set k, x | k in p.kids && x in LeafIds(k) :: x
  }

  lemma KidLeaves(p: Perm, j: nat)
    requires j < |p.kids|
    ensures LeafIds(p.kids[j]) <= LeafIds(p)
  {
    assert p.kids[j] in p.kids;
  }

  lemma LeafKid(p: Perm, x: string) returns (j: nat)
    requires p.kids != [] && x in LeafIds(p)
    ensures j < |p.kids| && x in LeafIds(p.kids[j])
  {
    var k :| k in p.kids && x in LeafIds(k);
    j :| j < |p.kids| && p.kids[j] == k;
  }

  /** Every inner vertex asks for at least one child. */
  predicate PositiveThresholds(t: Tree) {
    && (t.children != [] ==> t.threshold >= 1)
    && forall i | 0 <= i < |t.children| :: PositiveThresholds(t.children[i])
  }

  lemma {:induction false} CountAtLeast(ts: seq<Tree>, leaves: set<string>, zeroIsLeaf: bool, idx: seq<nat>)
    requires Increasing(idx, 0, |ts|) && forall j | 0 <= j < |idx| :: Satisfies(ts[idx[j]], leaves, zeroIsLeaf)
    ensures |idx| <= CountSat(ts, leaves, zeroIsLeaf)
    decreases |ts|
  {
    hide Satisfies;
    if idx != [] {
      assert idx[0] < |ts|;
      var front := ts[..|ts| - 1];
      if idx[|idx| - 1] == |ts| - 1 {
        CountAtLeast(front, leaves, zeroIsLeaf, idx[..|idx| - 1]);
      } else {
        CountAtLeast(front, leaves, zeroIsLeaf, idx);
      }
    }
  }

  lemma {:induction false} ChooseSatisfied(ts: seq<Tree>, leaves: set<string>, zeroIsLeaf: bool, k: nat) returns (idx: seq<nat>)
    requires k <= CountSat(ts, leaves, zeroIsLeaf)
    ensures |idx| == k && Increasing(idx, 0, |ts|)
    ensures forall j | 0 <= j < |idx| :: Satisfies(ts[idx[j]], leaves, zeroIsLeaf)
    decreases |ts|
  {
    hide Satisfies;
    if k == 0 {
      idx := [];
    } else {
      var front := ts[..|ts| - 1];
      if k <= CountSat(front, leaves, zeroIsLeaf) {
        idx := ChooseSatisfied(front, leaves, zeroIsLeaf, k);
      } else {
        idx := ChooseSatisfied(front, leaves, zeroIsLeaf, k - 1);
        idx := idx + [|ts| - 1];
      }
    }
  }

  /** More leaves satisfy whatever fewer do, and the formula asks for no more than the one with more leaves. */
  lemma {:induction false} SatGrows(t: Tree, leaves: set<string>, more: set<string>, zeroIsLeaf: bool)
    requires leaves <= more && Satisfies(t, leaves, zeroIsLeaf)
    ensures Satisfies(t, more, zeroIsLeaf) && Satisfies(t, more, false)
    decreases t
  {
    if t.children != [] && !(zeroIsLeaf && t.threshold == 0) {
      var idx := ChooseSatisfied(t.children, leaves, zeroIsLeaf, t.threshold);
      forall j | 0 <= j < |idx|
        ensures Satisfies(t.children[idx[j]], more, zeroIsLeaf) && Satisfies(t.children[idx[j]], more, false)
      {
        SatGrows(t.children[idx[j]], leaves, more, zeroIsLeaf);
      }
      CountAtLeast(t.children, more, zeroIsLeaf, idx);
      CountAtLeast(t.children, more, false, idx);
    }
  }

  lemma {:induction false} PermSatisfies(t: Tree, p: Perm, leaves: set<string>)
    requires IsPerm(t, p) && LeafIds(p) <= leaves
    ensures Satisfies(t, leaves, true)
    decreases t
  {
    if t.children != [] && t.threshold != 0 {
      var idx :| PicksChildren(t, p, idx);
      forall j | 0 <= j < |idx| ensures Satisfies(t.children[idx[j]], leaves, true) {
        KidLeaves(p, j);
        PermSatisfies(t.children[idx[j]], p.kids[j], leaves);
      }
      CountAtLeast(t.children, leaves, true, idx);
    }
  }

  lemma {:induction false} SatHasPerm(t: Tree, leaves: set<string>) returns (p: Perm)
    requires Satisfies(t, leaves, true)
    ensures IsPerm(t, p) && LeafIds(p) <= leaves
    decreases t
  {
    if t.children == [] || t.threshold == 0 {
      p := Perm(t.id, t.data, []);
      assert t.children != [] ==> PicksChildren(t, p, []);
    } else {
      var idx := ChooseSatisfied(t.children, leaves, true, t.threshold);
      var kids: seq<Perm> := [];
      for j := 0 to |idx|
        invariant |kids| == j
        invariant forall l | 0 <= l < j :: IsPerm(t.children[idx[l]], kids[l]) && LeafIds(kids[l]) <= leaves
      {
        var kid := SatHasPerm(t.children[idx[j]], leaves);
        kids := kids + [kid];
      }
      p := Perm(t.id, t.data, kids);
      assert PicksChildren(t, p, idx);
    }
  }

  /** A set of leaves contains those of some permutation exactly when it satisfies the tree, vertices that ask for nothing being leaves. */
  lemma CoveredByPermutations(t: Tree, leaves: set<string>)
    ensures Satisfies(t, leaves, true) <==> exists p :: IsPerm(t, p) && LeafIds(p) <= leaves
  {
    hide Satisfies; hide IsPerm; hide LeafIds;
    if Satisfies(t, leaves, true) {
      var p := SatHasPerm(t, leaves);
      assert IsPerm(t, p) && LeafIds(p) <= leaves;
    }
    forall p | IsPerm(t, p) && LeafIds(p) <= leaves ensures Satisfies(t, leaves, true) {
      PermSatisfies(t, p, leaves);
    }
  }

  lemma {:induction false} PositiveIsSame(t: Tree, leaves: set<string>)
    requires PositiveThresholds(t)
    ensures Satisfies(t, leaves, true) <==> Satisfies(t, leaves, false)
    decreases t, 1
  {
    PositiveCount(t.children, leaves);
  }

  lemma {:induction false} PositiveCount(ts: seq<Tree>, leaves: set<string>)
    requires forall i | 0 <= i < |ts| :: PositiveThresholds(ts[i])
    ensures CountSat(ts, leaves, true) == CountSat(ts, leaves, false)
    decreases ts, 0
  {
    if ts != [] {
      PositiveCount(ts[..|ts| - 1], leaves);
      PositiveIsSame(ts[|ts| - 1], leaves);
    }
  }

  /** With positive thresholds, a set of leaves satisfies the tree exactly when it contains the leaves of some permutation. */
  lemma SatisfiedByPermutations(t: Tree, leaves: set<string>)
    requires PositiveThresholds(t)
    ensures Sat(t, leaves) <==> exists p :: IsPerm(t, p) && LeafIds(p) <= leaves
  {
    hide Satisfies; hide IsPerm; hide LeafIds;
    PositiveIsSame(t, leaves);
    CoveredByPermutations(t, leaves);
  }

  // ---------------------------------------------------------------------------------------------
  // Minimal satisfying sets
  // ---------------------------------------------------------------------------------------------

  lemma {:induction false} NoSmaller(a: seq<nat>, b: seq<nat>, n: nat, i: nat)
    requires Increasing(a, 0, n) && Increasing(b, 0, n) && |a| == |b| && (forall k | 0 <= k < |a| :: a[k] in b) && i < |a|
    ensures b[i] <= a[i]
    decreases i
  {
    if i > 0 {
      NoSmaller(a, b, n, i - 1);
    }
    var p :| 0 <= p < |b| && b[p] == a[i];
  }

  lemma {:induction false} NoLarger(a: seq<nat>, b: seq<nat>, n: nat, i: nat)
    requires Increasing(a, 0, n) && Increasing(b, 0, n) && |a| == |b| && (forall k | 0 <= k < |a| :: a[k] in b) && i < |a|
    ensures a[i] <= b[i]
    decreases |a| - i
  {
    if i + 1 < |a| {
      NoLarger(a, b, n, i + 1);
    }
    var p :| 0 <= p < |b| && b[p] == a[i];
  }

  /** A choice cannot be contained in another of the same size. */
  lemma SameChoice(a: seq<nat>, b: seq<nat>, n: nat)
    requires Increasing(a, 0, n) && Increasing(b, 0, n) && |a| == |b| && forall k | 0 <= k < |a| :: a[k] in b
    ensures a == b
  {
    forall i | 0 <= i < |a| ensures a[i] == b[i] {
      NoSmaller(a, b, n, i);
      NoLarger(a, b, n, i);
    }
  }

  lemma {:induction false} LeavesInTree(t: Tree, p: Perm)
    requires IsPerm(t, p)
    ensures LeafIds(p) != {} && LeafIds(p) <= Ids(t)
    decreases t
  {
    if p.kids == [] {
      assert p.id in LeafIds(p);
    } else {
      var idx :| PicksChildren(t, p, idx);
      forall j | 0 <= j < |idx| ensures LeafIds(p.kids[j]) != {} && LeafIds(p.kids[j]) <= Ids(t) {
        LeavesInTree(t.children[idx[j]], p.kids[j]);
        ChildIds(t, idx[j]);
      }
      KidLeaves(p, 0);
      forall x | x in LeafIds(p) ensures x in Ids(t) {
        var j := LeafKid(p, x);
      }
    }
  }

  /** A leaf of a permutation sits below the child whose ids it is among. */
  lemma LeafSitsBelow(t: Tree, p: Perm, idx: seq<nat>, c: nat, x: string) returns (j: nat)
    requires UniqueIds(t) && PicksChildren(t, p, idx) && p.kids != [] && x in LeafIds(p) && c < |t.children| && x in Ids(t.children[c])
    ensures j < |idx| && idx[j] == c && x in LeafIds(p.kids[j])
  {
    hide Ids; hide LeafIds;
    j := LeafKid(p, x);
    LeavesInTree(t.children[idx[j]], p.kids[j]);
  }

  lemma KidsCorrespond(t: Tree, p: Perm, q: Perm, idx: seq<nat>, idx': seq<nat>)
    requires UniqueIds(t) && PicksChildren(t, p, idx) && PicksChildren(t, q, idx') && t.threshold > 0 && LeafIds(q) <= LeafIds(p)
    ensures idx == idx' && forall j | 0 <= j < |idx| :: LeafIds(q.kids[j]) <= LeafIds(p.kids[j])
  {
    hide Ids; hide LeafIds; hide IsPerm;
    forall j | 0 <= j < |idx'| ensures idx'[j] in idx {
      LeavesInTree(t.children[idx'[j]], q.kids[j]);
      KidLeaves(q, j);
      var x :| x in LeafIds(q.kids[j]);
      var l := LeafSitsBelow(t, p, idx, idx'[j], x);
    }
    SameChoice(idx', idx, |t.children|);
    forall j, x | 0 <= j < |idx| && x in LeafIds(q.kids[j]) ensures x in LeafIds(p.kids[j]) {
      LeavesInTree(t.children[idx[j]], q.kids[j]);
      KidLeaves(q, j);
      var l := LeafSitsBelow(t, p, idx, idx[j], x);
    }
  }

  /** The leaves of a permutation contain those of no other: permutations are minimal ways to satisfy the tree. */
  lemma {:induction false} PermutationsAreMinimal(t: Tree, p: Perm, q: Perm)
    requires UniqueIds(t) && IsPerm(t, p) && IsPerm(t, q) && LeafIds(q) <= LeafIds(p)
    ensures p == q
    decreases t
  {
    hide Ids; hide LeafIds;
    if t.children != [] {
      var idx :| PicksChildren(t, p, idx);
      var idx' :| PicksChildren(t, q, idx');
      if t.threshold > 0 {
        KidsCorrespond(t, p, q, idx, idx');
        forall j | 0 <= j < |idx| ensures p.kids[j] == q.kids[j] {
          PermutationsAreMinimal(t.children[idx[j]], p.kids[j], q.kids[j]);
        }
      }
      assert p.kids == q.kids;
    }
  }

  // ---------------------------------------------------------------------------------------------
  // Where the formula and the permutations part
  // ---------------------------------------------------------------------------------------------

  /** What some leaves satisfy, all leaves and inner vertices together satisfy, vertices that ask for nothing being leaves. */
  lemma {:induction false} SatisfiedByAll(t: Tree, leaves: set<string>, zeroIsLeaf: bool, all: set<string>)
    requires Satisfies(t, leaves, zeroIsLeaf) && Ids(t) <= all
    ensures Satisfies(t, all, true)
    decreases t
  {
    assert t.id in Ids(t);
    if t.children != [] && t.threshold != 0 {
      var idx := ChooseSatisfied(t.children, leaves, zeroIsLeaf, t.threshold);
      forall j | 0 <= j < |idx| ensures Satisfies(t.children[idx[j]], all, true) {
        ChildIds(t, idx[j]);
        SatisfiedByAll(t.children[idx[j]], leaves, zeroIsLeaf, all);
      }
      CountAtLeast(t.children, all, true, idx);
    }
  }

  /** Every inner vertex whose thresholds can be met, together with those of all vertices above it, asks for a child. */
  predicate Demanding(t: Tree, all: set<string>) {
    Satisfies(t, all, true) && t.children != [] ==>
      t.threshold >= 1 && forall i | 0 <= i < |t.children| :: Demanding(t.children[i], all)
  }

  lemma {:induction false} PositiveIsDemanding(t: Tree, all: set<string>)
    requires PositiveThresholds(t)
    ensures Demanding(t, all)
    decreases t
  {
    hide Satisfies;
    forall i | 0 <= i < |t.children| ensures Demanding(t.children[i], all) {
      PositiveIsDemanding(t.children[i], all);
    }
  }

  lemma {:induction false} DemandingIsSame(t: Tree, all: set<string>, leaves: set<string>)
    requires Demanding(t, all) && Ids(t) <= all
    ensures Satisfies(t, leaves, true) <==> Satisfies(t, leaves, false)
    decreases t
  {
    if Satisfies(t, leaves, true) {
      SatGrows(t, leaves, leaves, true);
    } else if Satisfies(t, leaves, false) && t.children != [] {
      SatisfiedByAll(t, leaves, false, all);
      var idx := ChooseSatisfied(t.children, leaves, false, t.threshold);
      forall j | 0 <= j < |idx| ensures Satisfies(t.children[idx[j]], leaves, true) {
        ChildIds(t, idx[j]);
        DemandingIsSame(t.children[idx[j]], all, leaves);
      }
      CountAtLeast(t.children, leaves, true, idx);
    }
  }

  /** A choice of satisfied children that includes a given one. */
  lemma {:induction false} ChooseIncluding(ts: seq<Tree>, leaves: set<string>, zeroIsLeaf: bool, k: nat, i: nat) returns (idx: seq<nat>, at: nat)
    requires i < |ts| && Satisfies(ts[i], leaves, zeroIsLeaf) && 1 <= k <= CountSat(ts, leaves, zeroIsLeaf)
    ensures |idx| == k && Increasing(idx, 0, |ts|) && at < k && idx[at] == i
    ensures forall j | 0 <= j < |idx| :: Satisfies(ts[idx[j]], leaves, zeroIsLeaf)
    decreases |ts|
  {
    hide Satisfies;
    var front := ts[..|ts| - 1];
    if i == |ts| - 1 {
      idx := ChooseSatisfied(front, leaves, zeroIsLeaf, k - 1);
      idx, at := idx + [i], k - 1;
    } else if k <= CountSat(front, leaves, zeroIsLeaf) {
      idx, at := ChooseIncluding(front, leaves, zeroIsLeaf, k, i);
    } else {
      CountAtLeast(front, leaves, zeroIsLeaf, [i]);
      idx, at := ChooseIncluding(front, leaves, zeroIsLeaf, k - 1, i);
      idx := idx + [|ts| - 1];
    }
  }

  lemma PicksMakePerm(t: Tree, p: Perm, idx: seq<nat>)
    requires t.children != [] && p.id == t.id && p.data == t.data && PicksChildren(t, p, idx)
    ensures IsPerm(t, p)
  {
  }

  /** A permutation that has the given one below the given child. */
  lemma PermThrough(t: Tree, all: set<string>, i: nat, inner: Perm) returns (p: Perm, idx: seq<nat>, at: nat)
    requires Satisfies(t, all, true) && t.threshold > 0 && i < |t.children|
    requires Satisfies(t.children[i], all, true) && IsPerm(t.children[i], inner)
    ensures IsPerm(t, p) && PicksChildren(t, p, idx) && at < |idx| && |p.kids| == |idx|
    ensures p.kids[at] == inner && idx[at] == i
  {
    idx, at := ChooseIncluding(t.children, all, true, t.threshold, i);
    hide Ids; hide IsPerm; hide Satisfies;
    var kids: seq<Perm> := [];
    for j := 0 to |idx|
      invariant |kids| == j && forall l | 0 <= l < j :: IsPerm(t.children[idx[l]], kids[l]) && (l == at ==> kids[l] == inner)
    {
      var kid := inner;
      if j != at {
        kid := SatHasPerm(t.children[idx[j]], all);
      }
      kids := kids + [kid];
    }
    p := Perm(t.id, t.data, kids);
    assert PicksChildren(t, p, idx);
    PicksMakePerm(t, p, idx);
  }

  /** Where some vertex that matters asks for nothing, a leaf of some permutation can be left out. */
  lemma {:induction false} DispensableLeaf(t: Tree, all: set<string>) returns (p: Perm, x: string)
    requires UniqueIds(t) && Ids(t) <= all && !Demanding(t, all)
    ensures IsPerm(t, p) && x in LeafIds(p) && Sat(t, LeafIds(p) - {x})
    decreases t
  {
    if t.threshold == 0 {
      p, x := Perm(t.id, t.data, []), t.id;
      assert PicksChildren(t, p, []);
    } else {
      var i :| 0 <= i < |t.children| && !Demanding(t.children[i], all);
      ChildIds(t, i);
      var inner, y := DispensableLeaf(t.children[i], all);
      hide Ids; hide LeafIds; hide Satisfies; hide PicksChildren; hide UniqueIds;
      var q, idx, at := PermThrough(t, all, i, inner);
      p, x := q, y;
      StillSatisfied(t, p, idx, at, x);
    }
  }

  lemma StillSatisfied(t: Tree, p: Perm, idx: seq<nat>, at: nat, x: string)
    requires UniqueIds(t) && t.children != [] && t.threshold > 0 && PicksChildren(t, p, idx)
    requires at < |idx| && x in LeafIds(p.kids[at]) && Sat(t.children[idx[at]], LeafIds(p.kids[at]) - {x})
    ensures x in LeafIds(p) && Sat(t, LeafIds(p) - {x})
  {
    hide Ids; hide LeafIds; hide Satisfies; hide IsPerm;
    KidLeaves(p, at);
    var leaves := LeafIds(p) - {x};
    LeavesInTree(t.children[idx[at]], p.kids[at]);
    forall j | 0 <= j < |idx| ensures Satisfies(t.children[idx[j]], leaves, false) {
      KidLeaves(p, j);
      if j == at {
        SatGrows(t.children[idx[j]], LeafIds(p.kids[j]) - {x}, leaves, false);
      } else {
        LeavesInTree(t.children[idx[j]], p.kids[j]);
        PermSatisfies(t.children[idx[j]], p.kids[j], LeafIds(p.kids[j]));
        SatGrows(t.children[idx[j]], LeafIds(p.kids[j]), leaves, true);
      }
    }
    CountAtLeast(t.children, leaves, false, idx);
    EnoughSatisfied(t, leaves);
  }

  lemma EnoughSatisfied(t: Tree, leaves: set<string>)
    requires t.children != [] && CountSat(t.children, leaves, false) >= t.threshold
    ensures Sat(t, leaves)
  {
  }

  const UNDEMANDING: Tree := Tree("root", 0, 0, [Tree("leaf", 0, 0, [])])

  /** A vertex that asks for no child becomes a leaf of its permutation, although its formula holds of no leaves at all. */
  lemma ZeroThresholdIsNotCovered()
    ensures Sat(UNDEMANDING, {})
    ensures !exists p :: IsPerm(UNDEMANDING, p) && LeafIds(p) <= {}
  {
    forall p | IsPerm(UNDEMANDING, p) ensures !(LeafIds(p) <= {}) {
      LeavesInTree(UNDEMANDING, p);
    }
  }

  /** The permutations are the ways to satisfy the formula. */
  ghost predicate PermutationsDecide(t: Tree) {
    forall leaves {:trigger Sat(t, leaves)} :: Sat(t, leaves) <==> exists p :: IsPerm(t, p) && LeafIds(p) <= leaves
  }

  /** This is so exactly when every inner vertex that can be part of a permutation asks for a child. */
  lemma DecideExactlyWhenDemanding(t: Tree)
    requires UniqueIds(t)
    ensures PermutationsDecide(t) <==> Demanding(t, Ids(t))
  {
    hide Ids; hide LeafIds; hide Satisfies; hide IsPerm; hide Demanding; hide UniqueIds;
    if Demanding(t, Ids(t)) {
      forall leaves ensures Sat(t, leaves) <==> exists p :: IsPerm(t, p) && LeafIds(p) <= leaves {
        DemandingIsSame(t, Ids(t), leaves);
        CoveredByPermutations(t, leaves);
      }
    } else {
      var p, x := DispensableLeaf(t, Ids(t));
      forall q | IsPerm(t, q) ensures !(LeafIds(q) <= LeafIds(p) - {x}) {
        if LeafIds(q) <= LeafIds(p) - {x} {
          PermutationsAreMinimal(t, p, q);
        }
      }
      assert !(Sat(t, LeafIds(p) - {x}) <==> exists q :: IsPerm(t, q) && LeafIds(q) <= LeafIds(p) - {x});
    }
  }
}
