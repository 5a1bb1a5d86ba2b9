/**
 Where the greedy evaluator is well behaved and where it is not: adding signers never hurts a gate
 over leaves, and the evaluator misses no solution of such gates exactly when the signers are aligned.
 Neither holds of nested gates in general.
 */
module OneLevelGates {
  import opened Wrappers
  import opened SignaturePolicy

  predicate AllLeafRules(rules: seq<Rule>) {
    forall i | 0 <= i < |rules| :: rules[i].SignedBy?
  }

  /** A leaf, or a gate over leaves. */
  predicate OneLevel(rule: Rule) {
    rule.SignedBy? || (rule.NOutOf? && AllLeafRules(rule.rules))
  }

  // ---------------------------------------------------------------------------------------------
  // Fewer marks
  // ---------------------------------------------------------------------------------------------

  predicate FewerMarks(a: Used, b: Used) {
    |a| == |b| && forall i | 0 <= i < |a| :: a[i] ==> b[i]
  }

  lemma LeafMonotone(rule: Rule, principals: seq<Principal>, s: Signers, a: Used, b: Used)
    requires rule.SignedBy? && Compiles(rule, principals) && |b| == |s.ids| && FewerMarks(a, b)
    ensures var va, vb := Eval(rule, principals, s, a), Eval(rule, principals, s, b);
            && (vb.ok ==> va.ok)
            && FewerMarks(if va.ok then va.used else a, if vb.ok then vb.used else b)
  {
    var p := principals[rule.index];
    var i, j := FirstFit(p, s, a, 0), FirstFit(p, s, b, 0);
    assert j < |b| ==> Fits(p, s, a, j);
    assert i < j ==> !Fits(p, s, b, i);
  }

  lemma {:induction false} LeavesMonotone(rules: seq<Rule>, principals: seq<Principal>, s: Signers, a: Used, b: Used)
    requires AllLeafRules(rules) && AllCompile(rules, principals) && |b| == |s.ids| && FewerMarks(a, b)
    ensures EvalAll(rules, principals, s, b).count <= EvalAll(rules, principals, s, a).count
    decreases |rules|
  {
    if rules != [] {
      LeafMonotone(rules[0], principals, s, a, b);
      var va, vb := Eval(rules[0], principals, s, a), Eval(rules[0], principals, s, b);
      LeavesMonotone(rules[1..], principals, s, if va.ok then va.used else a, if vb.ok then vb.used else b);
    }
  }

  /** A gate over leaves that accepts keeps accepting when fewer identities are taken. */
  lemma OneLevelMonotone(rule: Rule, principals: seq<Principal>, s: Signers, a: Used, b: Used)
    requires OneLevel(rule) && Compiles(rule, principals) && |b| == |s.ids| && FewerMarks(a, b)
    requires Eval(rule, principals, s, b).ok
    ensures Eval(rule, principals, s, a).ok
  {
    if rule.SignedBy? {
      LeafMonotone(rule, principals, s, a, b);
    } else {
      LeavesMonotone(rule.rules, principals, s, a, b);
    }
  }

  // ---------------------------------------------------------------------------------------------
  // More signers
  // ---------------------------------------------------------------------------------------------

  /** `f` places the signers of `a`, in order, among those of `b`; all other signers of `b` are taken. */
  predicate Embeds(f: seq<nat>, a: Signers, b: Signers, ua: Used, ub: Used) {
    && |f| == |a.ids| == |ua| && |b.ids| == |ub|
    && (forall i, j | 0 <= i < j < |f| :: f[i] < f[j])
    && (forall i | 0 <= i < |f| :: f[i] < |ub| && b.ids[f[i]] == a.ids[i] && ub[f[i]] == ua[i])
    && (forall j | 0 <= j < |ub| :: ub[j] || j in f)
  }

  lemma FitsEmbeds(f: seq<nat>, p: Principal, a: Signers, b: Signers, ua: Used, ub: Used, i: nat)
    requires Embeds(f, a, b, ua, ub) && a.sat == b.sat && i < |f|
    ensures f[i] < |ub| && (Fits(p, a, ua, i) <==> Fits(p, b, ub, f[i]))
  {
  }

  lemma FitsComesFrom(f: seq<nat>, p: Principal, a: Signers, b: Signers, ua: Used, ub: Used, j: nat) returns (i: nat)
    requires Embeds(f, a, b, ua, ub) && a.sat == b.sat && Fits(p, b, ub, j)
    ensures i < |f| && f[i] == j && Fits(p, a, ua, i)
  {
    i :| i < |f| && f[i] == j;
  }

  lemma FirstFitEmbeds(f: seq<nat>, p: Principal, a: Signers, b: Signers, ua: Used, ub: Used)
    requires Embeds(f, a, b, ua, ub) && a.sat == b.sat
    ensures var i, j := FirstFit(p, a, ua, 0), FirstFit(p, b, ub, 0);
            if i < |ua| then j == f[i] else j == |ub|
  {
    hide FirstFit; hide Fits; hide Embeds;
    EmbedsInOrder(f, a, b, ua, ub);
    var i, j := FirstFit(p, a, ua, 0), FirstFit(p, b, ub, 0);
    if j < |ub| {
      var k := FitsComesFrom(f, p, a, b, ua, ub, j);
      assert i <= k;
    }
    if i < |ua| {
      FitsEmbeds(f, p, a, b, ua, ub, i);
      assert j <= f[i];
    }
  }

  lemma EmbedsInOrder(f: seq<nat>, a: Signers, b: Signers, ua: Used, ub: Used)
    requires Embeds(f, a, b, ua, ub)
    ensures |f| == |a.ids| == |ua| && |b.ids| == |ub|
    ensures forall i, j | 0 <= i <= j < |f| :: f[i] <= f[j]
  {
  }

  /** Taken signers might as well not be there. */
  lemma {:induction false} EvalEmbeds(f: seq<nat>, rule: Rule, principals: seq<Principal>, a: Signers, b: Signers, ua: Used, ub: Used)
    requires Embeds(f, a, b, ua, ub) && a.sat == b.sat && Compiles(rule, principals)
    ensures Eval(rule, principals, a, ua).ok == Eval(rule, principals, b, ub).ok
    ensures Embeds(f, a, b, Eval(rule, principals, a, ua).used, Eval(rule, principals, b, ub).used)
    decreases rule, 1
  {
    match rule
    case SignedBy(k) =>
      FirstFitEmbeds(f, principals[k], a, b, ua, ub);
    case NOutOf(_, rules) =>
      EvalAllEmbeds(f, rules, principals, a, b, ua, ub);
  }

  lemma {:induction false} EvalAllEmbeds(f: seq<nat>, rules: seq<Rule>, principals: seq<Principal>, a: Signers, b: Signers, ua: Used, ub: Used)
    requires Embeds(f, a, b, ua, ub) && a.sat == b.sat && AllCompile(rules, principals)
    ensures EvalAll(rules, principals, a, ua).count == EvalAll(rules, principals, b, ub).count
    ensures Embeds(f, a, b, EvalAll(rules, principals, a, ua).used, EvalAll(rules, principals, b, ub).used)
    decreases rules, 0
  {
    if rules != [] {
      EvalEmbeds(f, rules[0], principals, a, b, ua, ub);
      var va, vb := Eval(rules[0], principals, a, ua), Eval(rules[0], principals, b, ub);
      EvalAllEmbeds(f, rules[1..], principals, a, b, if va.ok then va.used else ua, if vb.ok then vb.used else ub);
    }
  }

  /** The signers of `a` appear among those of `b`, in the same order. */
  ghost predicate Subsequence(a: Signers, b: Signers) {
    exists f: seq<nat> {:trigger Places(f, a, b)} :: Places(f, a, b)
  }

  predicate Places(f: seq<nat>, a: Signers, b: Signers) {
    && |f| == |a.ids|
    && (forall i, j | 0 <= i < j < |f| :: f[i] < f[j])
    && (forall i | 0 <= i < |f| :: f[i] < |b.ids| && b.ids[f[i]] == a.ids[i])
  }

  /** More signers never turn the acceptance of a gate over leaves into rejection. */
  lemma MoreSignersAccepted(rule: Rule, principals: seq<Principal>, a: Signers, b: Signers)
    requires OneLevel(rule) && Compiles(rule, principals)
    requires Subsequence(a, b) && a.sat == b.sat
    requires Accepts(rule, principals, a)
    ensures Accepts(rule, principals, b)
  {
    var f: seq<nat> :| Places(f, a, b);
    var ub := seq(|b.ids|, j requires 0 <= j < |b.ids| => j !in f);
    EvalEmbeds(f, rule, principals, a, b, Fresh(|a.ids|), ub);
    OneLevelMonotone(rule, principals, b, Fresh(|b.ids|), ub);
  }

  // ---------------------------------------------------------------------------------------------
  // No missed solutions
  // ---------------------------------------------------------------------------------------------

  /** Identity `i` satisfies principal `k`. */
  predicate Meet(principals: seq<Principal>, s: Signers, i: nat, k: nat) {
    i < |s.ids| && k < |principals| && s.sat(s.ids[i], principals[k])
  }

  /** No signer satisfies two different principals. */
  predicate Exclusive(principals: seq<Principal>, s: Signers) {
    forall i, k, l | 0 <= i < |s.ids| && 0 <= k < |principals| && 0 <= l < |principals| ::
      Meet(principals, s, i, k) && Meet(principals, s, i, l) ==> principals[k] == principals[l]
  }

  /** A signer who could take the place of an earlier one for one principal could do so for every principal the earlier one satisfies. */
  predicate Aligned(principals: seq<Principal>, s: Signers) {
    forall i, j, k, l | 0 <= i < j < |s.ids| && 0 <= k < |principals| && 0 <= l < |principals| ::
      Meet(principals, s, i, k) && Meet(principals, s, i, l) && Meet(principals, s, j, k) ==> Meet(principals, s, j, l)
  }

  lemma ExclusiveIsAligned(principals: seq<Principal>, s: Signers)
    requires Exclusive(principals, s)
    ensures Aligned(principals, s)
  {
  }

  /** For each leaf, the identity that is to meet it, if any. */
  type Pick = seq<Option<nat>>

  function CountPicked(pick: Pick): nat {
    if pick == [] then 0 else (if pick[0].Some? then 1 else 0) + CountPicked(pick[1..])
  }

  /** Every picked identity is free and satisfies its leaf, and none is picked twice. */
  predicate ValidPick(pick: Pick, rules: seq<Rule>, principals: seq<Principal>, s: Signers, used: Used)
    requires AllLeafRules(rules) && AllCompile(rules, principals) && |used| == |s.ids|
  {
    && |pick| == |rules|
    && (forall j | 0 <= j < |pick| && pick[j].Some? :: Fits(principals[rules[j].index], s, used, pick[j].value))
    && (forall j, l | 0 <= j < l < |pick| && pick[j].Some? && pick[l].Some? :: pick[j].value != pick[l].value)
  }

  lemma {:induction false} CountAfterUpdate(pick: Pick, j: nat, x: Option<nat>)
    requires j < |pick| && pick[j].Some?
    ensures CountPicked(pick[j := x]) == CountPicked(pick) - 1 + (if x.Some? then 1 else 0)
    decreases |pick|
  {
    if j > 0 {
      CountAfterUpdate(pick[1..], j - 1, x);
      assert pick[j := x][1..] == pick[1..][j - 1 := x];
    }
  }

  lemma CountTail(pick: Pick)
    requires pick != []
    ensures CountPicked(pick) == CountPicked(pick[1..]) + (if pick[0].Some? then 1 else 0)
  {
  }

  /** What the first leaf takes can be taken out of any pick at the cost of one. */
  lemma Exchange(pick: Pick, rules: seq<Rule>, principals: seq<Principal>, s: Signers, used: Used) returns (rest: Pick)
    requires rules != [] && AllLeafRules(rules) && AllCompile(rules, principals) && |used| == |s.ids|
    requires Aligned(principals, s) && ValidPick(pick, rules, principals, s, used)
    requires Eval(rules[0], principals, s, used).ok
    ensures ValidPick(rest, rules[1..], principals, s, Eval(rules[0], principals, s, used).used)
    ensures CountPicked(pick) <= CountPicked(rest) + 1
  {
    hide FirstFit; hide CountPicked;
    var i := FirstFit(principals[rules[0].index], s, used, 0);
    CountTail(pick);
    if j :| 1 <= j < |pick| && pick[j] == Some(i) {
      rest := pick[1..][j - 1 := pick[0]];
      CountAfterUpdate(pick[1..], j - 1, pick[0]);
      var k, l := rules[0].index, rules[j].index;
      assert Meet(principals, s, i, k) && Meet(principals, s, i, l);
      if pick[0].Some? {
        assert i < pick[0].value && Meet(principals, s, pick[0].value, k);
        assert Meet(principals, s, pick[0].value, l);
      }
    } else {
      rest := pick[1..];
    }
  }

  /** With aligned signers, no way of picking identities meets more leaves than the evaluator does. */
  lemma {:induction false} GreedyIsBest(pick: Pick, rules: seq<Rule>, principals: seq<Principal>, s: Signers, used: Used)
    requires AllLeafRules(rules) && AllCompile(rules, principals) && |used| == |s.ids|
    requires Aligned(principals, s) && ValidPick(pick, rules, principals, s, used)
    ensures CountPicked(pick) <= EvalAll(rules, principals, s, used).count
    decreases |rules|
  {
    if rules != [] {
      var v := Eval(rules[0], principals, s, used);
      if v.ok {
        var rest := Exchange(pick, rules, principals, s, used);
        GreedyIsBest(rest, rules[1..], principals, s, v.used);
      } else {
        assert pick[0].None?;
        GreedyIsBest(pick[1..], rules[1..], principals, s, used);
      }
    }
  }

  /** A witness for a gate over leaves, as a pick. */
  lemma {:induction false} PickOf(ws: seq<Choice>, rules: seq<Rule>, principals: seq<Principal>, s: Signers) returns (pick: Pick)
    requires AllLeafRules(rules) && AllCompile(rules, principals) && AllMeet(ws, rules, principals, s)
    requires Distinct(AllLeaves(ws))
    ensures ValidPick(pick, rules, principals, s, Fresh(|s.ids|))
    ensures CountPicked(pick) == CountMet(ws)
    ensures forall j | 0 <= j < |pick| && pick[j].Some? :: pick[j].value in AllLeaves(ws)
    decreases |ws|
  {
    if ws == [] {
      pick := [];
    } else {
      var head, tail, all := ChoiceLeaves(ws[0]), AllLeaves(ws[1..]), AllLeaves(ws);
      assert all == head + tail;
      DistinctSuffix(head, tail);
      pick := PickOf(ws[1..], rules[1..], principals, s);
      if ws[0].Met? {
        var i := ws[0].how.i;
        assert ws[0] == Met(Signer(i)) && ChoiceLeaves(Met(Signer(i))) == Leaves(Signer(i)) == [i];
        NotInTail(i, tail);
        pick := [Some(i)] + pick;
        assert all[0] == i;
      } else {
        pick := [None] + pick;
      }
    }
  }

  lemma DistinctSuffix<T>(head: seq<T>, tail: seq<T>)
    requires Distinct(head + tail)
    ensures Distinct(tail)
    ensures forall x | x in tail :: x in head + tail
  {
    var all := head + tail;
    assert forall i | 0 <= i < |tail| :: tail[i] == all[|head| + i];
  }

  lemma NotInTail<T>(x: T, tail: seq<T>)
    requires Distinct([x] + tail)
    ensures x !in tail
  {
    var all := [x] + tail;
    assert all[0] == x && forall i | 0 <= i < |tail| :: tail[i] == all[i + 1];
  }

  lemma OneLevelComplete(w: Witness, rule: Rule, principals: seq<Principal>, s: Signers)
    requires OneLevel(rule) && Compiles(rule, principals) && Aligned(principals, s)
    requires MetByDistinct(w, rule, principals, s)
    ensures Accepts(rule, principals, s)
  {
    match rule
    case SignedBy(k) =>
      assert Fits(principals[k], s, Fresh(|s.ids|), w.i);
    case NOutOf(_, rules) =>
      var pick := PickOf(w.subs, rules, principals, s);
      GreedyIsBest(pick, rules, principals, s, Fresh(|s.ids|));
  }

  /** With aligned signers, a gate over leaves accepts exactly when some distinct signers meet it. */
  lemma OneLevelExact(rule: Rule, principals: seq<Principal>, s: Signers)
    requires OneLevel(rule) && Compiles(rule, principals) && Aligned(principals, s)
    ensures Accepts(rule, principals, s) <==> exists w :: MetByDistinct(w, rule, principals, s)
  {
    hide Meets; hide Leaves; hide Eval; hide Aligned;
    if Accepts(rule, principals, s) {
      var w := EvalSound(rule, principals, s, Fresh(|s.ids|));
      assert MetByDistinct(w, rule, principals, s);
    }
    forall w | MetByDistinct(w, rule, principals, s) ensures Accepts(rule, principals, s) {
      OneLevelComplete(w, rule, principals, s);
    }
  }

  /** Whatever the leaves and the marks, no way of picking identities meets more leaves than the evaluator does. */
  ghost predicate GreedyAlwaysBest(principals: seq<Principal>, s: Signers) {
    forall rules, used, pick |
      AllLeafRules(rules) && AllCompile(rules, principals) && |used| == |s.ids| && ValidPick(pick, rules, principals, s, used) ::
      CountPicked(pick) <= EvalAll(rules, principals, s, used).count
  }

  /** Only these two identities are free. */
  function AllBut(n: nat, i: nat, j: nat): Used {
    seq(n, m => m != i && m != j)
  }

  /** Where two signers are not aligned, a gate over two leaves loses one. */
  lemma MisalignedLosesOne(principals: seq<Principal>, s: Signers, i: nat, j: nat, k: nat, l: nat)
    requires i < j < |s.ids| && k < |principals| && l < |principals|
    requires Meet(principals, s, i, k) && Meet(principals, s, i, l) && Meet(principals, s, j, k) && !Meet(principals, s, j, l)
    ensures var rules, used := [SignedBy(k), SignedBy(l)], AllBut(|s.ids|, i, j);
            && ValidPick([Some(j), Some(i)], rules, principals, s, used) && CountPicked([Some(j), Some(i)]) == 2
            && EvalAll(rules, principals, s, used).count == 1
  {
    var rules, used := [SignedBy(k), SignedBy(l)], AllBut(|s.ids|, i, j);
    var pick: Pick := [Some(j), Some(i)];
    assert pick[1..] == [Some(i)] && CountPicked([Some(i)]) == 1;
    var after := used[i := true];
    LeafTakes(k, principals, s, used, i);
    LeafFails(l, principals, s, after);
    hide Eval; hide EvalAll;
    EvalNil(principals, s, after);
    EvalCons(SignedBy(l), [], principals, s, after);
    EvalCons(SignedBy(k), [SignedBy(l)], principals, s, used);
    assert [SignedBy(l)] + [] == [SignedBy(l)] && [SignedBy(k)] + [SignedBy(l)] == rules;
  }

  /** The evaluator is best on all gates over leaves and all marks exactly when the signers are aligned. */
  lemma BestExactlyWhenAligned(principals: seq<Principal>, s: Signers)
    ensures GreedyAlwaysBest(principals, s) <==> Aligned(principals, s)
  {
    hide EvalAll; hide ValidPick; hide CountPicked; hide Meet;
    if Aligned(principals, s) {
      forall rules, used, pick |
        AllLeafRules(rules) && AllCompile(rules, principals) && |used| == |s.ids| && ValidPick(pick, rules, principals, s, used)
        ensures CountPicked(pick) <= EvalAll(rules, principals, s, used).count
      {
        GreedyIsBest(pick, rules, principals, s, used);
      }
    } else {
      var i, j, k, l :| 0 <= i < j < |s.ids| && 0 <= k < |principals| && 0 <= l < |principals| &&
        Meet(principals, s, i, k) && Meet(principals, s, i, l) && Meet(principals, s, j, k) && !Meet(principals, s, j, l);
      MisalignedLosesOne(principals, s, i, j, k, l);
      var rules, used, pick: Pick := [SignedBy(k), SignedBy(l)], AllBut(|s.ids|, i, j), [Some(j), Some(i)];
      assert !(CountPicked(pick) <= EvalAll(rules, principals, s, used).count);
    }
  }

  /** The gate accepts exactly when some distinct signers meet it. */
  ghost predicate ExactOn(rule: Rule, principals: seq<Principal>, s: Signers)
    requires Compiles(rule, principals)
  {
    Accepts(rule, principals, s) <==> exists w :: MetByDistinct(w, rule, principals, s)
  }

  /** Every gate over leaves is exact, whichever of the signers have signed. */
  ghost predicate AlwaysExact(principals: seq<Principal>, s: Signers) {
    forall a: Signers, rule: Rule | a.sat == s.sat && Subsequence(a, s) && OneLevel(rule) && Compiles(rule, principals) :: ExactOn(rule, principals, a)
  }

  lemma SublistAligned(principals: seq<Principal>, a: Signers, s: Signers)
    requires Aligned(principals, s) && a.sat == s.sat && Subsequence(a, s)
    ensures Aligned(principals, a)
  {
    var f: seq<nat> :| Places(f, a, s);
    assert forall i: nat, k: nat | i < |a.ids| :: Meet(principals, a, i, k) == Meet(principals, s, f[i], k);
    hide Meet;
  }

  /** The second signer for the first leaf, the first for the second. */
  const CROSSED: Witness := Chosen([Met(Signer(1)), Met(Signer(0))])

  lemma CrossedLeaves()
    ensures Leaves(CROSSED) == [1, 0] && CountMet(CROSSED.subs) == 2 && CROSSED.subs[1..] == [Met(Signer(0))]
  {
    var last := [Met(Signer(0))];
    assert CROSSED.subs[1..] == last && last[1..] == [];
    assert AllLeaves(last) == [0] + [] == [0];
    assert AllLeaves(CROSSED.subs) == [1] + [0];
    assert CountMet(last) == 1;
  }

  lemma CrossedMeets(principals: seq<Principal>, s: Signers, k: nat, l: nat)
    requires Meet(principals, s, 1, k) && Meet(principals, s, 0, l)
    ensures var rule := NOutOf(2, [SignedBy(k), SignedBy(l)]); Compiles(rule, principals) && MetByDistinct(CROSSED, rule, principals, s)
  {
    hide Leaves; hide CountMet;
    CrossedLeaves();
    var rules, last := [SignedBy(k), SignedBy(l)], [Met(Signer(0))];
    assert rules[1..] == [SignedBy(l)] && [SignedBy(l)][1..] == [] && last[1..] == [];
    assert AllMeet(last, [SignedBy(l)], principals, s);
    assert AllMeet(CROSSED.subs, rules, principals, s);
  }

  /** Two signers who are not aligned meet a gate over two leaves that rejects them. */
  lemma MisalignedPair(principals: seq<Principal>, s: Signers, k: nat, l: nat)
    requires |s.ids| == 2 && k < |principals| && l < |principals|
    requires Meet(principals, s, 0, k) && Meet(principals, s, 0, l) && Meet(principals, s, 1, k) && !Meet(principals, s, 1, l)
    ensures var rule := NOutOf(2, [SignedBy(k), SignedBy(l)]);
            && Compiles(rule, principals) && OneLevel(rule)
            && !Accepts(rule, principals, s) && MetByDistinct(CROSSED, rule, principals, s) && !ExactOn(rule, principals, s)
  {
    hide Eval; hide EvalAll; hide MetByDistinct; hide ValidPick; hide CountPicked;
    CrossedMeets(principals, s, k, l);
    MisalignedLosesOne(principals, s, 0, 1, k, l);
    assert AllBut(2, 0, 1) == Fresh(2);
    EvalGate(2, [SignedBy(k), SignedBy(l)], principals, s, Fresh(2));
  }

  /** Gates over leaves are exact on every sub-list of the signers exactly when the signers are aligned. */
  lemma ExactExactlyWhenAligned(principals: seq<Principal>, s: Signers)
    ensures AlwaysExact(principals, s) <==> Aligned(principals, s)
  {
    hide ExactOn; hide Compiles; hide OneLevel;
    if Aligned(principals, s) {
      forall a: Signers, rule: Rule | a.sat == s.sat && Subsequence(a, s) && OneLevel(rule) && Compiles(rule, principals)
        ensures ExactOn(rule, principals, a)
      {
        SublistAligned(principals, a, s);
        assert ExactOn(rule, principals, a) by { OneLevelIsExact(rule, principals, a); }
      }
    } else {
      var i, j, k, l :| 0 <= i < j < |s.ids| && 0 <= k < |principals| && 0 <= l < |principals| &&
        Meet(principals, s, i, k) && Meet(principals, s, i, l) && Meet(principals, s, j, k) && !Meet(principals, s, j, l);
      var a := Signers([s.ids[i], s.ids[j]], s.sat);
      assert Places([i, j], a, s);
      MisalignedPair(principals, a, k, l);
    }
  }

  lemma OneLevelIsExact(rule: Rule, principals: seq<Principal>, s: Signers)
    requires OneLevel(rule) && Compiles(rule, principals) && Aligned(principals, s)
    ensures ExactOn(rule, principals, s)
  {
    hide Accepts; hide MetByDistinct; hide Aligned;
    OneLevelExact(rule, principals, s);
  }

  // ---------------------------------------------------------------------------------------------
  // What fails beyond that
  // ---------------------------------------------------------------------------------------------

  lemma LeafTakes(k: nat, principals: seq<Principal>, s: Signers, used: Used, i: nat)
    requires k < |principals| && |used| == |s.ids| && Fits(principals[k], s, used, i)
    requires forall j | 0 <= j < i :: !Fits(principals[k], s, used, j)
    ensures Eval(SignedBy(k), principals, s, used) == Verdict(true, used[i := true])
  {
    hide FirstFit;
  }

  lemma LeafFails(k: nat, principals: seq<Principal>, s: Signers, used: Used)
    requires k < |principals| && |used| == |s.ids|
    requires forall j | 0 <= j < |used| :: !Fits(principals[k], s, used, j)
    ensures Eval(SignedBy(k), principals, s, used) == Verdict(false, used)
  {
    hide FirstFit;
  }

  /** The marks the next rule of a gate sees. */
  function After(v: Verdict, used: Used): Used {
    if v.ok then v.used else used
  }

  function One(v: Verdict): nat {
    if v.ok then 1 else 0
  }

  /** A gate of three rules, step by step. */
  lemma EvalThree(n: int, a: Rule, b: Rule, c: Rule, principals: seq<Principal>, s: Signers, used: Used)
    requires |used| == |s.ids| && Compiles(a, principals) && Compiles(b, principals) && Compiles(c, principals)
    ensures Compiles(NOutOf(n, [a, b, c]), principals)
    ensures var va := Eval(a, principals, s, used);
            var vb := Eval(b, principals, s, After(va, used));
            var vc := Eval(c, principals, s, After(vb, After(va, used)));
            Eval(NOutOf(n, [a, b, c]), principals, s, used) ==
            Verdict(One(va) + One(vb) + One(vc) >= n, After(vc, After(vb, After(va, used))))
  {
    hide Eval; hide EvalAll; hide Compiles;
    var ua := After(Eval(a, principals, s, used), used);
    var ub := After(Eval(b, principals, s, ua), ua);
    var uc := After(Eval(c, principals, s, ub), ub);
    EvalCons(c, [], principals, s, ub);
    EvalCons(b, [c], principals, s, ua);
    EvalCons(a, [b, c], principals, s, used);
    assert [c] + [] == [c] && [b] + [c] == [b, c] && [a] + [b, c] == [a, b, c];
    EvalGate(n, [a, b, c], principals, s, used);
    EvalNil(principals, s, uc);
  }

  lemma EvalCons(r: Rule, rest: seq<Rule>, principals: seq<Principal>, s: Signers, used: Used)
    requires |used| == |s.ids| && Compiles(r, principals) && AllCompile(rest, principals)
    ensures AllCompile([r] + rest, principals)
    ensures var v := Eval(r, principals, s, used);
            var t := EvalAll(rest, principals, s, After(v, used));
            EvalAll([r] + rest, principals, s, used) == Tally(t.count + One(v), t.used)
  {
    hide Compiles; hide Eval;
    assert ([r] + rest)[1..] == rest;
  }

  lemma EvalNil(principals: seq<Principal>, s: Signers, used: Used)
    requires |used| == |s.ids|
    ensures EvalAll([], principals, s, used) == Tally(0, used)
  {
  }

  lemma EvalGate(n: int, rules: seq<Rule>, principals: seq<Principal>, s: Signers, used: Used)
    requires |used| == |s.ids| && AllCompile(rules, principals)
    ensures Compiles(NOutOf(n, rules), principals)
    ensures var t := EvalAll(rules, principals, s, used);
            Eval(NOutOf(n, rules), principals, s, used) == Verdict(t.count >= n, t.used)
  {
    hide EvalAll;
  }

  function ByMsp(id: Identity, p: Principal): bool {
    id.mspid == p.principal
  }

  const A_AND_B: seq<Principal> := [Principal(ROLE, "A"), Principal(ROLE, "B")]
  const INNER: Rule := NOutOf(3, [SignedBy(0), SignedBy(0), SignedBy(1)])
  const OUTER: Rule := NOutOf(2, [INNER, SignedBy(0), SignedBy(0)])
  const TWO: Signers := Signers([Identity("A", "1"), Identity("A", "2")], ByMsp)
  const THREE: Signers := Signers([Identity("A", "1"), Identity("A", "2"), Identity("B", "3")], ByMsp)

  /** For two A signers the inner gate fails, and both are left to the outer leaves. */
  lemma TwoAccepted()
    ensures Accepts(OUTER, A_AND_B, TWO)
  {
    hide Eval;
    var u0, u1, u2 := [false, false], [true, false], [true, true];
    LeafTakes(0, A_AND_B, TWO, u0, 0);
    assert u0[0 := true] == u1;
    LeafTakes(0, A_AND_B, TWO, u1, 1);
    assert u1[1 := true] == u2;
    LeafFails(1, A_AND_B, TWO, u2);
    EvalThree(3, SignedBy(0), SignedBy(0), SignedBy(1), A_AND_B, TWO, u0);
    EvalThree(2, INNER, SignedBy(0), SignedBy(0), A_AND_B, TWO, u0);
    assert Fresh(2) == u0;
  }

  /** For two A signers and a B signer the inner gate accepts, and nothing is left to the outer leaves. */
  lemma ThreeRejected()
    ensures Compiles(OUTER, A_AND_B) && !Accepts(OUTER, A_AND_B, THREE)
  {
    hide Eval;
    var u0, u1, u2, u3 := [false, false, false], [true, false, false], [true, true, false], [true, true, true];
    LeafTakes(0, A_AND_B, THREE, u0, 0);
    assert u0[0 := true] == u1;
    LeafTakes(0, A_AND_B, THREE, u1, 1);
    assert u1[1 := true] == u2;
    LeafTakes(1, A_AND_B, THREE, u2, 2);
    assert u2[2 := true] == u3;
    LeafFails(0, A_AND_B, THREE, u3);
    EvalThree(3, SignedBy(0), SignedBy(0), SignedBy(1), A_AND_B, THREE, u0);
    EvalThree(2, INNER, SignedBy(0), SignedBy(0), A_AND_B, THREE, u0);
    assert Fresh(3) == u0;
  }

  /** Two of (two A and one B, A, A): accepted for two A signers, rejected once a B signer joins them. */
  lemma NestedGateNotMonotone()
    ensures Subsequence(TWO, THREE) && Compiles(OUTER, A_AND_B)
    ensures Accepts(OUTER, A_AND_B, TWO) && !Accepts(OUTER, A_AND_B, THREE)
  {
    hide Accepts;
    assert Places([0, 1], TWO, THREE);
    ThreeRejected();
    TwoAccepted();
  }

  const MEMBER_AND_ADMIN: seq<Principal> := [Principal(ROLE, "member"), Principal(ROLE, "admin")]
  const BOTH: Rule := NOutOf(2, [SignedBy(0), SignedBy(1)])

  /** An admin is a member too. */
  function ByRank(id: Identity, p: Principal): bool {
    id.mspid == "admin" || id.mspid == p.principal
  }

  const ADMIN_FIRST: Signers := Signers([Identity("admin", "1"), Identity("member", "2")], ByRank)

  /** The admin is spent on the member leaf, so the admin leaf goes unmet although the two signers could meet both. */
  lemma OverlapMissesASolution()
    ensures Compiles(BOTH, MEMBER_AND_ADMIN) && OneLevel(BOTH)
    ensures !Accepts(BOTH, MEMBER_AND_ADMIN, ADMIN_FIRST)
    ensures exists w :: MetByDistinct(w, BOTH, MEMBER_AND_ADMIN, ADMIN_FIRST)
  {
    MisalignedPair(MEMBER_AND_ADMIN, ADMIN_FIRST, 0, 1);
  }
}
