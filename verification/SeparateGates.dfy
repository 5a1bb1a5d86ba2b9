/**
 Nested gates that behave: where no signer concerns two rules of a gate, the rules do not get in each
 other's way, so what holds of gates over leaves holds of gates over such gates.
 */
module SeparateGates {
  import opened Wrappers
  import opened SignaturePolicy
  import opened OneLevelGates

  // ---------------------------------------------------------------------------------------------
  // What a rule depends on
  // ---------------------------------------------------------------------------------------------

  /** Some leaf of the rule names a principal that identity `i` satisfies. */
  predicate Concerns(rule: Rule, principals: seq<Principal>, s: Signers, i: nat)
    requires Compiles(rule, principals)
  {
    match rule
    case SignedBy(k) => i < |s.ids| && s.sat(s.ids[i], principals[k])
    case NOutOf(_, rules) => exists j | 0 <= j < |rules| :: Concerns(rules[j], principals, s, i)
  }

  /** The region holds every identity that concerns the rule. */
  predicate Within(rule: Rule, principals: seq<Principal>, s: Signers, region: set<nat>)
    requires Compiles(rule, principals)
  {
    forall i | 0 <= i < |s.ids| && Concerns(rule, principals, s, i) :: i in region
  }

  predicate Agree(a: Used, b: Used, region: set<nat>) {
    |a| == |b| && forall i | 0 <= i < |a| && i in region :: a[i] == b[i]
  }

  predicate SameOutside(a: Used, b: Used, region: set<nat>) {
    |a| == |b| && forall i | 0 <= i < |a| && i !in region :: a[i] == b[i]
  }

  lemma FirstFitFrame(p: Principal, s: Signers, a: Used, b: Used)
    requires |a| == |b| == |s.ids| && forall i | 0 <= i < |a| && s.sat(s.ids[i], p) :: a[i] == b[i]
    ensures FirstFit(p, s, a, 0) == FirstFit(p, s, b, 0)
  {
    hide FirstFit;
    var i, j := FirstFit(p, s, a, 0), FirstFit(p, s, b, 0);
    assert i < |a| ==> Fits(p, s, b, i);
    assert j < |b| ==> Fits(p, s, a, j);
  }

  /** The verdict of a rule depends on the marks of the identities that concern it, and no others get marked. */
  lemma {:induction false} EvalFrame(rule: Rule, principals: seq<Principal>, s: Signers, a: Used, b: Used, region: set<nat>)
    requires Compiles(rule, principals) && |a| == |b| == |s.ids| && Within(rule, principals, s, region) && Agree(a, b, region)
    ensures var va, vb := Eval(rule, principals, s, a), Eval(rule, principals, s, b);
            va.ok == vb.ok && Agree(va.used, vb.used, region) && SameOutside(a, va.used, region)
    decreases rule, 1
  {
    match rule
    case SignedBy(k) =>
      FirstFitFrame(principals[k], s, a, b);
    case NOutOf(_, rules) =>
      forall j | 0 <= j < |rules| ensures Within(rules[j], principals, s, region) {
        RuleWithin(rule, principals, s, region, j);
      }
      EvalAllFrame(rules, principals, s, a, b, region);
  }

  lemma RuleWithin(gate: Rule, principals: seq<Principal>, s: Signers, region: set<nat>, j: nat)
    requires gate.NOutOf? && Compiles(gate, principals) && Within(gate, principals, s, region) && j < |gate.rules|
    ensures Within(gate.rules[j], principals, s, region)
  {
  }

  lemma {:induction false} EvalAllFrame(rules: seq<Rule>, principals: seq<Principal>, s: Signers, a: Used, b: Used, region: set<nat>)
    requires AllCompile(rules, principals) && |a| == |b| == |s.ids| && Agree(a, b, region)
    requires forall j | 0 <= j < |rules| :: Within(rules[j], principals, s, region)
    ensures var ta, tb := EvalAll(rules, principals, s, a), EvalAll(rules, principals, s, b);
            ta.count == tb.count && Agree(ta.used, tb.used, region) && SameOutside(a, ta.used, region)
    decreases rules, 0
  {
    hide Eval; hide Within; hide Compiles;
    if rules != [] {
      EvalFrame(rules[0], principals, s, a, b, region);
      var va, vb := Eval(rules[0], principals, s, a), Eval(rules[0], principals, s, b);
      EvalAllFrame(rules[1..], principals, s, After(va, a), After(vb, b), region);
    }
  }

  // ---------------------------------------------------------------------------------------------
  // Rules that do not share signers
  // ---------------------------------------------------------------------------------------------

  function Concerned(rule: Rule, principals: seq<Principal>, s: Signers): set<nat>
    requires Compiles(rule, principals)
  {
    set i: nat | i < |s.ids| && Concerns(rule, principals, s, i)
  }

  /** No signer concerns two of the rules. */
  predicate Apart(rules: seq<Rule>, principals: seq<Principal>, s: Signers)
    requires AllCompile(rules, principals)
  {
    forall i, j | 0 <= i < j < |rules| :: Concerned(rules[i], principals, s) !! Concerned(rules[j], principals, s)
  }

  /** How many of the rules accept, each on the same marks. */
  function CountAccepting(rules: seq<Rule>, principals: seq<Principal>, s: Signers, used: Used): nat
    requires AllCompile(rules, principals) && |used| == |s.ids|
  {
    if rules == [] then 0
    else One(Eval(rules[0], principals, s, used)) + CountAccepting(rules[1..], principals, s, used)
  }

  /** Rules that do not share signers are met as if each were alone. */
  lemma {:induction false} ApartCount(rules: seq<Rule>, principals: seq<Principal>, s: Signers, used: Used, now: Used)
    requires AllCompile(rules, principals) && |used| == |now| == |s.ids| && Apart(rules, principals, s)
    requires forall j | 0 <= j < |rules| :: Agree(used, now, Concerned(rules[j], principals, s))
    ensures EvalAll(rules, principals, s, now).count == CountAccepting(rules, principals, s, used)
    decreases |rules|
  {
    hide Eval; hide Concerned; hide Compiles;
    if rules != [] {
      var mine := Concerned(rules[0], principals, s);
      WithinConcerned(rules[0], principals, s);
      EvalFrame(rules[0], principals, s, now, used, mine);
      var next := After(Eval(rules[0], principals, s, now), now);
      forall j | 0 <= j < |rules[1..]| ensures Agree(used, next, Concerned(rules[1..][j], principals, s)) {
        assert Concerned(rules[0], principals, s) !! Concerned(rules[j + 1], principals, s);
        assert Agree(used, now, Concerned(rules[j + 1], principals, s));
      }
      assert Apart(rules[1..], principals, s) by {
        forall i, j | 0 <= i < j < |rules[1..]| ensures Concerned(rules[1..][i], principals, s) !! Concerned(rules[1..][j], principals, s) {
          assert rules[1..][i] == rules[i + 1] && rules[1..][j] == rules[j + 1];
        }
      }
      ApartCount(rules[1..], principals, s, used, next);
    }
  }

  lemma WithinConcerned(rule: Rule, principals: seq<Principal>, s: Signers)
    requires Compiles(rule, principals)
    ensures Within(rule, principals, s, Concerned(rule, principals, s))
  {
  }

  /** A gate over leaves, or a gate over such gates that do not share signers, and so on. */
  predicate Separate(rule: Rule, principals: seq<Principal>, s: Signers)
    requires Compiles(rule, principals)
  {
    || OneLevel(rule)
    || (rule.NOutOf? && Apart(rule.rules, principals, s) && forall j | 0 <= j < |rule.rules| :: Separate(rule.rules[j], principals, s))
  }

  lemma ApartGate(rule: Rule, principals: seq<Principal>, s: Signers, used: Used)
    requires rule.NOutOf? && Compiles(rule, principals) && Apart(rule.rules, principals, s) && |used| == |s.ids|
    ensures Eval(rule, principals, s, used).ok <==> CountAccepting(rule.rules, principals, s, used) >= rule.n
  {
    hide CountAccepting; hide EvalAll; hide Concerned;
    ApartCount(rule.rules, principals, s, used, used);
  }

  /** Such gates keep accepting when fewer identities are taken. */
  lemma {:induction false} SeparateMonotone(rule: Rule, principals: seq<Principal>, s: Signers, a: Used, b: Used)
    requires Compiles(rule, principals) && Separate(rule, principals, s) && |b| == |s.ids| && FewerMarks(a, b)
    requires Eval(rule, principals, s, b).ok
    ensures Eval(rule, principals, s, a).ok
    decreases rule, 1
  {
    if OneLevel(rule) {
      OneLevelMonotone(rule, principals, s, a, b);
    } else {
      hide Eval; hide Apart;
      ApartGate(rule, principals, s, a);
      ApartGate(rule, principals, s, b);
      MoreAccepting(rule.rules, principals, s, a, b);
    }
  }

  lemma {:induction false} MoreAccepting(rules: seq<Rule>, principals: seq<Principal>, s: Signers, a: Used, b: Used)
    requires AllCompile(rules, principals) && |b| == |s.ids| && FewerMarks(a, b)
    requires forall j | 0 <= j < |rules| :: Separate(rules[j], principals, s)
    ensures CountAccepting(rules, principals, s, b) <= CountAccepting(rules, principals, s, a)
    decreases rules, 0
  {
    hide Eval; hide Separate; hide Compiles; hide FewerMarks;
    if rules != [] {
      if Eval(rules[0], principals, s, b).ok {
        SeparateMonotone(rules[0], principals, s, a, b);
      }
      assert |a| == |b| by { SameLength(a, b); }
      MoreAccepting(rules[1..], principals, s, a, b);
    }
  }

  lemma SameLength(a: Used, b: Used)
    requires FewerMarks(a, b)
    ensures |a| == |b|
  {
  }

  /** More signers never turn the acceptance of such gates into rejection. */
  lemma MoreSignersSeparate(rule: Rule, principals: seq<Principal>, a: Signers, b: Signers)
    requires Compiles(rule, principals) && Separate(rule, principals, b)
    requires Subsequence(a, b) && a.sat == b.sat
    requires Accepts(rule, principals, a)
    ensures Accepts(rule, principals, b)
  {
    hide Eval; hide Separate; hide Compiles;
    var f: seq<nat> :| Places(f, a, b);
    var ub := seq(|b.ids|, j requires 0 <= j < |b.ids| => j !in f);
    EvalEmbeds(f, rule, principals, a, b, Fresh(|a.ids|), ub);
    SeparateMonotone(rule, principals, b, Fresh(|b.ids|), ub);
  }

  // ---------------------------------------------------------------------------------------------
  // No missed solutions
  // ---------------------------------------------------------------------------------------------

  lemma DistinctPrefix<T>(head: seq<T>, tail: seq<T>)
    requires Distinct(head + tail)
    ensures Distinct(head)
  {
    var all := head + tail;
    assert forall i | 0 <= i < |head| :: head[i] == all[i];
  }

  lemma {:induction false} SeparateComplete(w: Witness, rule: Rule, principals: seq<Principal>, s: Signers)
    requires Compiles(rule, principals) && Separate(rule, principals, s) && Aligned(principals, s)
    requires MetByDistinct(w, rule, principals, s)
    ensures Accepts(rule, principals, s)
    decreases rule, 1
  {
    if OneLevel(rule) {
      OneLevelComplete(w, rule, principals, s);
    } else {
      MetAccept(w.subs, rule.rules, principals, s);
      hide Eval;
      ApartGate(rule, principals, s, Fresh(|s.ids|));
    }
  }

  lemma {:induction false} MetAccept(ws: seq<Choice>, rules: seq<Rule>, principals: seq<Principal>, s: Signers)
    requires AllCompile(rules, principals) && AllMeet(ws, rules, principals, s) && Distinct(AllLeaves(ws)) && Aligned(principals, s)
    requires forall j | 0 <= j < |rules| :: Separate(rules[j], principals, s)
    ensures CountMet(ws) <= CountAccepting(rules, principals, s, Fresh(|s.ids|))
    decreases rules, 0
  {
    hide Eval; hide Separate; hide Compiles; hide Aligned; hide Meets; hide Leaves;
    if rules != [] {
      DistinctSuffix(ChoiceLeaves(ws[0]), AllLeaves(ws[1..]));
      MetAccept(ws[1..], rules[1..], principals, s);
      if ws[0].Met? {
        DistinctPrefix(ChoiceLeaves(ws[0]), AllLeaves(ws[1..]));
        SeparateComplete(ws[0].how, rules[0], principals, s);
      }
    }
  }

  /** With aligned signers, such gates accept exactly when some distinct signers meet them. */
  lemma SeparateExact(rule: Rule, principals: seq<Principal>, s: Signers)
    requires Compiles(rule, principals) && Separate(rule, principals, s) && Aligned(principals, s)
    ensures Accepts(rule, principals, s) <==> exists w :: MetByDistinct(w, rule, principals, s)
  {
    hide Meets; hide Leaves; hide Eval; hide Aligned; hide Separate; hide Compiles;
    if Accepts(rule, principals, s) {
      var w := EvalSound(rule, principals, s, Fresh(|s.ids|));
      assert MetByDistinct(w, rule, principals, s);
    }
    forall w | MetByDistinct(w, rule, principals, s) ensures Accepts(rule, principals, s) {
      SeparateComplete(w, rule, principals, s);
    }
  }
}
