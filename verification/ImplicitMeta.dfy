/**
 Implicit meta policies (`common/policies/implicitmeta.go`): how they count their sub-policies, what
 their conversion to a signature policy means, and how the two relate.
 */
module ImplicitMeta {
  import opened Wrappers
  import opened SignaturePolicy
  import opened OneLevelGates
  import opened PolicyConvert

  // ---------------------------------------------------------------------------------------------
  // Evaluation
  // ---------------------------------------------------------------------------------------------

  datatype MetaRule = ANY | ALL | MAJORITY

  /** The threshold `NewImplicitMetaPolicy` computes. */
  function Threshold(rule: MetaRule, n: nat): nat {
    if n == 0 then 0
    else
      match rule
      case ANY => 1
      case ALL => n
      case MAJORITY => n / 2 + 1
  }

  /** `EvaluateIdentities`: sub-policies see the same signers independently of each other. */
  predicate Satisfied(p: Policy, s: Signers)
    requires PolicyConvert.WellFormed(p)
    decreases p, 1
  {
    match p
    case Signature(env) => Accepts(env.rule, env.identities, s)
    case Meta(threshold, subs) =>
      var count := CountSatisfied(subs, s);
      if threshold > 0 then count >= threshold else threshold == 0 && count == 0
    case Opaque => false
  }

  function CountSatisfied(subs: seq<Policy>, s: Signers): (n: nat)
    requires AllWellFormed(subs)
    ensures n <= |subs|
    decreases subs, 0
  {
    if subs == [] then 0 else (if Satisfied(subs[0], s) then 1 else 0) + CountSatisfied(subs[1..], s)
  }

  /** The loop of `EvaluateIdentities`: a counter runs down and the loop stops when it reaches zero. */
  method EvaluateIdentities(p: Policy, s: Signers) returns (ok: bool)
    requires PolicyConvert.WellFormed(p)
    ensures ok == Satisfied(p, s)
    decreases p
  {
    match p
    case Signature(env) =>
      var used := new bool[|s.ids|](_ => false);
      assert used[..] == Fresh(|s.ids|);
      ok := Evaluate(env.rule, env.identities, s, used);
    case Meta(threshold, subs) =>
      var remaining := threshold;
      for i := 0 to |subs|
        invariant CountSatisfied(subs, s) == threshold - remaining + CountSatisfied(subs[i..], s)
        invariant remaining <= threshold && (remaining == 0 ==> threshold == 0)
        invariant threshold > 0 ==> remaining > 0
      {
        assert subs[i..][1..] == subs[i + 1..];
        var satisfied := EvaluateIdentities(subs[i], s);
        if satisfied {
          remaining := remaining - 1;
          if remaining == 0 {
            return true;
          }
        }
      }
      return remaining == 0;
    case Opaque =>
      return false;
  }

  // ---------------------------------------------------------------------------------------------
  // The meaning of a conversion
  // ---------------------------------------------------------------------------------------------

  predicate Convertible(p: Policy) {
    match p
    case Signature(_) => true
    case Meta(_, subs) => forall i | 0 <= i < |subs| :: Convertible(subs[i])
    case Opaque => false
  }

  /** Evaluation of the policy tree itself, each signer counting once across all sub-policies. */
  function SharedEval(p: Policy, s: Signers, used: Used): (v: Verdict)
    requires PolicyConvert.WellFormed(p) && |used| == |s.ids|
    ensures |v.used| == |used|
    decreases p, 1
  {
    match p
    case Signature(env) => Eval(env.rule, env.identities, s, used)
    case Meta(threshold, subs) =>
      var t := SharedAll(subs, s, used);
      Verdict(t.count >= threshold, t.used)
    case Opaque => Verdict(false, used)
  }

  function SharedAll(subs: seq<Policy>, s: Signers, used: Used): (t: Tally)
    requires AllWellFormed(subs) && |used| == |s.ids|
    ensures |t.used| == |used|
    decreases subs, 0
  {
    if subs == [] then Tally(0, used)
    else
      var v := SharedEval(subs[0], s, used);
      var t := SharedAll(subs[1..], s, if v.ok then v.used else used);
      if v.ok then t.(count := t.count + 1) else t
  }

  /** Every signer satisfies both principals or neither. */
  ghost predicate SatAgree(sat: (Identity, Principal) -> bool, p: Principal, q: Principal) {
    forall id: Identity :: sat(id, p) == sat(id, q)
  }

  lemma {:induction false} FirstFitAgree(p: Principal, q: Principal, s: Signers, used: Used, i: nat)
    requires |used| == |s.ids| && i <= |used| && SatAgree(s.sat, p, q)
    ensures FirstFit(p, s, used, i) == FirstFit(q, s, used, i)
    decreases |used| - i
  {
    if i < |used| {
      FirstFitAgree(p, q, s, used, i + 1);
    }
  }

  /** The numbers in `f` lead to principals the signers cannot tell from the original ones. */
  ghost predicate LeadsAlike(f: seq<nat>, from: seq<Principal>, to: seq<Principal>, s: Signers) {
    |f| == |from| && forall k | 0 <= k < |f| :: f[k] < |to| && SatAgree(s.sat, from[k], to[f[k]])
  }

  /** Renumbering the leaves along `f` changes neither the verdict nor the marks. */
  lemma {:induction false} RemapEval(rule: Rule, f: seq<nat>, from: seq<Principal>, to: seq<Principal>, s: Signers, used: Used)
    requires Compiles(rule, from) && LeadsAlike(f, from, to, s) && |used| == |s.ids|
    ensures Compiles(Remap(rule, f, from), to)
    ensures Eval(Remap(rule, f, from), to, s, used) == Eval(rule, from, s, used)
    decreases rule, 1
  {
    hide SatAgree;
    match rule
    case SignedBy(k) =>
      FirstFitAgree(from[k], to[f[k]], s, used, 0);
    case NOutOf(_, rules) =>
      RemapEvalAll(rules, Remap(rule, f, from).rules, f, from, to, s, used);
  }

  lemma {:induction false} RemapEvalAll(rules: seq<Rule>, remapped: seq<Rule>, f: seq<nat>, from: seq<Principal>, to: seq<Principal>,
                                        s: Signers, used: Used)
    requires AllCompile(rules, from) && LeadsAlike(f, from, to, s) && |used| == |s.ids|
    requires |remapped| == |rules| && forall i | 0 <= i < |rules| :: remapped[i] == Remap(rules[i], f, from)
    ensures AllCompile(remapped, to)
    ensures EvalAll(remapped, to, s, used) == EvalAll(rules, from, s, used)
    decreases rules, 0
  {
    hide LeadsAlike; hide Remap; hide Compiles;
    if rules != [] {
      RemapEval(rules[0], f, from, to, s, used);
      var v := Eval(rules[0], from, s, used);
      RemapEvalAll(rules[1..], remapped[1..], f, from, to, s, if v.ok then v.used else used);
      assert forall i | 0 <= i < |remapped| :: i == 0 || remapped[i] == remapped[1..][i - 1];
    }
  }

  function Numbers(n: nat): seq<nat> {
    seq(n, i => i)
  }

  lemma {:induction false} RemapInPlace(rule: Rule, ids: seq<Principal>)
    requires Compiles(rule, ids)
    ensures Remap(rule, Numbers(|ids|), ids) == rule
  {
    match rule
    case SignedBy(k) =>
    case NOutOf(n, rules) =>
      forall i | 0 <= i < |rules| ensures Remap(rules[i], Numbers(|ids|), ids) == rules[i] {
        RemapInPlace(rules[i], ids);
      }
      assert Remap(rule, Numbers(|ids|), ids).rules == rules;
  }

  /** Appending principals changes nothing for rules that do not name them. */
  lemma EvalWithMore(rule: Rule, ids: seq<Principal>, more: seq<Principal>, s: Signers, used: Used)
    requires Compiles(rule, ids) && ids <= more && |used| == |s.ids|
    ensures Compiles(rule, more)
    ensures Eval(rule, more, s, used) == Eval(rule, ids, s, used)
  {
    hide Eval; hide Compiles; hide Remap;
    RemapInPlace(rule, ids);
    RemapEval(rule, Numbers(|ids|), ids, more, s, used);
  }

  /** The rule gives the verdict and the marks of the policy, whatever identities are taken beforehand. */
  ghost predicate SameMeaning(rule: Rule, ids: seq<Principal>, p: Policy, s: Signers)
    requires PolicyConvert.WellFormed(p)
  {
    && Compiles(rule, ids)
    && forall used: Used | |used| == |s.ids| :: Eval(rule, ids, s, used) == SharedEval(p, s, used)
  }

  lemma MeaningWithMore(rule: Rule, ids: seq<Principal>, more: seq<Principal>, p: Policy, s: Signers)
    requires PolicyConvert.WellFormed(p) && SameMeaning(rule, ids, p, s) && ids <= more
    ensures SameMeaning(rule, more, p, s)
  {
    hide Eval; hide SharedEval; hide Compiles;
    CompilesWithMore(rule, ids, more);
    forall used: Used | |used| == |s.ids| ensures Eval(rule, more, s, used) == SharedEval(p, s, used) {
      EvalWithMore(rule, ids, more, s, used);
    }
  }

  lemma MeaningAfterMerge(env: Envelope, that: Envelope, p: Policy, s: Signers)
    requires env.rule.NOutOf? && EnvelopeCompiles(that) && RejectsUnknownClasses(s.sat)
    requires PolicyConvert.WellFormed(p) && SameMeaning(that.rule, that.identities, p, s)
    ensures var m := Merge(env, that); SameMeaning(m.rule.rules[|env.rule.rules|], m.identities, p, s)
  {
    hide Eval; hide SharedEval; hide Compiles; hide Remap; hide PrincipalKey; hide MergeIdentities; hide Remapping;
    var ids := MergeIdentities(env.identities, that.identities);
    var f := Remapping(env.identities, that.identities);
    MergeExact(env.identities, that.identities);
    forall k | 0 <= k < |f| ensures SatAgree(s.sat, that.identities[k], ids[f[k]]) {
      forall id: Identity ensures s.sat(id, that.identities[k]) == s.sat(id, ids[f[k]]) {
        SameKeySameSat(s.sat, id, that.identities[k], ids[f[k]]);
      }
    }
    var rule := Remap(that.rule, f, that.identities);
    RemapCompiles(that.rule, f, that.identities, ids);
    forall used: Used | |used| == |s.ids| ensures Eval(rule, ids, s, used) == SharedEval(p, s, used) {
      RemapEval(that.rule, f, that.identities, ids, s, used);
    }
  }

  /** The i-th rule of a converted meta policy means what the i-th sub-policy means; no principal key occurs twice. */
  lemma {:induction false} ConvertAllMeaning(threshold: int, subs: seq<Policy>, s: Signers)
    requires AllWellFormed(subs) && RejectsUnknownClasses(s.sat) && ConvertAll(threshold, subs).Some?
    ensures var env := ConvertAll(threshold, subs).value;
            && |env.rule.rules| == |subs|
            && (forall i | 0 <= i < |subs| :: SameMeaning(env.rule.rules[i], env.identities, subs[i], s))
            && DistinctPrincipals(env.identities)
    decreases subs, 0
  {
    hide Compiles; hide SameMeaning; hide PrincipalKey; hide MergeIdentities; hide Remapping; hide Remap; hide RejectsUnknownClasses;
    if subs != [] {
      var front, last := subs[..|subs| - 1], subs[|subs| - 1];
      var env, that := ConvertAll(threshold, front).value, Convert(last).value;
      ConvertAllMeaning(threshold, front, s);
      ConvertMeaning(last, s);
      MergeExact(env.identities, that.identities);
      MeaningAfterMerge(env, that, last, s);
      var m := Merge(env, that);
      forall i | 0 <= i < |front| ensures SameMeaning(m.rule.rules[i], m.identities, subs[i], s) {
        MeaningWithMore(env.rule.rules[i], env.identities, m.identities, subs[i], s);
      }
    }
  }

  lemma MeaningAt(rule: Rule, ids: seq<Principal>, p: Policy, s: Signers, used: Used)
    requires PolicyConvert.WellFormed(p) && SameMeaning(rule, ids, p, s) && |used| == |s.ids|
    ensures Compiles(rule, ids) && Eval(rule, ids, s, used) == SharedEval(p, s, used)
  {
    hide Eval; hide SharedEval; hide Compiles;
  }

  lemma {:induction false} GateMeaning(rules: seq<Rule>, ids: seq<Principal>, subs: seq<Policy>, s: Signers, used: Used)
    requires AllWellFormed(subs) && |rules| == |subs| && |used| == |s.ids|
    requires forall i | 0 <= i < |subs| :: SameMeaning(rules[i], ids, subs[i], s)
    ensures AllCompile(rules, ids)
    ensures EvalAll(rules, ids, s, used) == SharedAll(subs, s, used)
    decreases |subs|
  {
    hide Eval; hide SharedEval; hide SameMeaning; hide Compiles;
    if subs != [] {
      forall i | 0 <= i < |rules| ensures Compiles(rules[i], ids) {
        MeaningAt(rules[i], ids, subs[i], s, used);
      }
      MeaningAt(rules[0], ids, subs[0], s, used);
      var v := Eval(rules[0], ids, s, used);
      GateMeaning(rules[1..], ids, subs[1..], s, if v.ok then v.used else used);
    }
  }

  /** The conversion of any nesting of policies evaluates, mark for mark, as the policy tree itself. */
  lemma {:induction false} ConvertMeaning(p: Policy, s: Signers)
    requires PolicyConvert.WellFormed(p) && RejectsUnknownClasses(s.sat) && Convert(p).Some?
    ensures SameMeaning(Convert(p).value.rule, Convert(p).value.identities, p, s)
    decreases p, 1
  {
    match p
    case Signature(_) =>
    case Meta(threshold, subs) =>
      hide RejectsUnknownClasses; hide DistinctPrincipals;
      ConvertAllMeaning(threshold, subs, s);
      var env := Convert(p).value;
      forall used: Used | |used| == |s.ids| ensures Eval(env.rule, env.identities, s, used) == SharedEval(p, s, used) {
        GateMeaning(env.rule.rules, env.identities, subs, s, used);
      }
  }

  /** Conversion succeeds exactly when every policy at a leaf has a conversion. */
  lemma {:induction false} ConvertSucceeds(p: Policy)
    requires PolicyConvert.WellFormed(p)
    ensures Convert(p).Some? <==> Convertible(p)
    decreases p, 1
  {
    match p
    case Signature(_) =>
    case Opaque =>
    case Meta(threshold, subs) =>
      ConvertAllSucceeds(threshold, subs);
  }

  lemma {:induction false} ConvertAllSucceeds(threshold: int, subs: seq<Policy>)
    requires AllWellFormed(subs)
    ensures ConvertAll(threshold, subs).Some? <==> forall i | 0 <= i < |subs| :: Convertible(subs[i])
    decreases subs, 0
  {
    hide Merge; hide Convert; hide Convertible; hide EnvelopeCompiles; hide PolicyConvert.WellFormed;
    if subs != [] {
      ConvertAllSucceeds(threshold, subs[..|subs| - 1]);
      ConvertSucceeds(subs[|subs| - 1]);
    }
  }

  /** `Convert`, growing the envelope in place. */
  method ConvertInPlace(p: Policy) returns (r: Option<Envelope>)
    requires PolicyConvert.WellFormed(p)
    ensures r == Convert(p)
    decreases p
  {
    match p
    case Signature(env) => return Some(env);
    case Opaque => return None;
    case Meta(threshold, subs) =>
      assert AllWellFormed(subs) && Convert(p) == ConvertAll(threshold, subs);
      hide Merge; hide Convert; hide ConvertAll; hide EnvelopeCompiles;
      var converted := new Converted(threshold);
      ConvertNone(threshold);
      for i := 0 to |subs|
        invariant fresh(converted)
        invariant ConvertAll(threshold, subs[..i]) == Some(converted.Value())
      {
        var sub := ConvertInPlace(subs[i]);
        if sub.None? {
          NoConversionAfter(threshold, subs, i);
          return None;
        }
        ConvertOneMore(threshold, subs, i);
        converted.MergeWith(sub.value);
      }
      assert subs[..|subs|] == subs;
      return Some(Envelope(NOutOf(converted.n, converted.rules), converted.identities));
  }

  lemma ConvertNone(threshold: int)
    ensures ConvertAll(threshold, []) == Some(Envelope(NOutOf(threshold, []), []))
  {
  }

  lemma ConvertOneMore(threshold: int, subs: seq<Policy>, i: nat)
    requires AllWellFormed(subs) && i < |subs| && ConvertAll(threshold, subs[..i]).Some? && Convert(subs[i]).Some?
    ensures ConvertAll(threshold, subs[..i + 1]) == Some(Merge(ConvertAll(threshold, subs[..i]).value, Convert(subs[i]).value))
  {
    hide Merge; hide Convert; hide EnvelopeCompiles; hide PolicyConvert.WellFormed;
    assert subs[..i + 1][..i] == subs[..i];
  }

  lemma NoConversionAfter(threshold: int, subs: seq<Policy>, i: nat)
    requires AllWellFormed(subs) && i < |subs| && Convert(subs[i]).None?
    ensures ConvertAll(threshold, subs).None?
  {
    ConvertAllSucceeds(threshold, subs);
    ConvertSucceeds(subs[i]);
  }

  // ---------------------------------------------------------------------------------------------
  // The conversion and the meta policy
  // ---------------------------------------------------------------------------------------------

  /** Gates over leaves at the bottom, and thresholds as `NewImplicitMetaPolicy` sets them. */
  predicate Plain(p: Policy) {
    match p
    case Signature(env) => OneLevel(env.rule)
    case Meta(threshold, subs) =>
      && (if subs == [] then threshold == 0 else threshold > 0)
      && forall i | 0 <= i < |subs| :: Plain(subs[i])
    case Opaque => true
  }

  lemma {:induction false} SharedImpliesSatisfied(p: Policy, s: Signers, used: Used)
    requires PolicyConvert.WellFormed(p) && Plain(p) && |used| == |s.ids|
    requires SharedEval(p, s, used).ok
    ensures Satisfied(p, s)
    decreases p, 1
  {
    match p
    case Signature(env) =>
      OneLevelMonotone(env.rule, env.identities, s, Fresh(|s.ids|), used);
    case Meta(threshold, subs) =>
      SharedCount(subs, s, used);
  }

  lemma {:induction false} SharedCount(subs: seq<Policy>, s: Signers, used: Used)
    requires AllWellFormed(subs) && (forall i | 0 <= i < |subs| :: Plain(subs[i])) && |used| == |s.ids|
    ensures SharedAll(subs, s, used).count <= CountSatisfied(subs, s)
    decreases subs, 0
  {
    if subs != [] {
      var v := SharedEval(subs[0], s, used);
      if v.ok {
        SharedImpliesSatisfied(subs[0], s, used);
      }
      SharedCount(subs[1..], s, if v.ok then v.used else used);
    }
  }

  /** Whoever satisfies the conversion of nested meta policies over gates of leaves satisfies the policy itself. */
  lemma ConversionIsAtLeastAsStrict(p: Policy, s: Signers)
    requires PolicyConvert.WellFormed(p) && Plain(p) && RejectsUnknownClasses(s.sat) && Convert(p).Some?
    requires Accepts(Convert(p).value.rule, Convert(p).value.identities, s)
    ensures Satisfied(p, s)
  {
    hide Eval; hide SharedEval; hide Convert; hide Satisfied; hide Plain;
    ConvertMeaning(p, s);
    SharedImpliesSatisfied(p, s, Fresh(|s.ids|));
  }

  /** What the three rules mean for a meta policy that `NewImplicitMetaPolicy` builds over the sub-policies. */
  lemma MetaRuleMeaning(rule: MetaRule, subs: seq<Policy>, s: Signers)
    requires AllWellFormed(subs)
    ensures var p, count := Meta(Threshold(rule, |subs|), subs), CountSatisfied(subs, s);
            && (subs == [] ==> Satisfied(p, s))
            && (subs != [] && rule == ANY ==> (Satisfied(p, s) <==> count > 0))
            && (rule == ALL ==> (Satisfied(p, s) <==> count == |subs|))
            && (subs != [] && rule == MAJORITY ==> (Satisfied(p, s) <==> 2 * count > |subs|))
  {
  }

  const SIGNED_BY_A: Policy := Signature(Envelope(SignedBy(0), [Principal(ROLE, "A")]))
  const TWICE_A: Policy := Meta(2, [SIGNED_BY_A, SIGNED_BY_A])
  const ONE_A: Signers := Signers([Identity("A", "1")], ByRole)

  function ByRole(id: Identity, p: Principal): bool {
    p.classification == ROLE && id.mspid == p.principal
  }

  lemma TwiceAShared()
    ensures PolicyConvert.WellFormed(TWICE_A) && Plain(TWICE_A) && Convertible(TWICE_A)
    ensures Satisfied(TWICE_A, ONE_A) && !SharedEval(TWICE_A, ONE_A, Fresh(1)).ok
  {
    var subs, p := [SIGNED_BY_A, SIGNED_BY_A], [Principal(ROLE, "A")];
    assert subs[1..] == [SIGNED_BY_A] && [SIGNED_BY_A][1..] == [];
    LeafTakes(0, p, ONE_A, [false], 0);
    LeafFails(0, p, ONE_A, [true]);
    assert Fresh(1) == [false] && [false][0 := true] == [true];
    assert SharedAll([], ONE_A, [true]) == Tally(0, [true]);
    assert SharedAll([SIGNED_BY_A], ONE_A, [true]) == Tally(0, [true]);
    assert SharedAll(subs, ONE_A, [false]) == Tally(1, [true]);
    assert CountSatisfied([SIGNED_BY_A], ONE_A) == 1;
  }

  /** One signer may count for several sub-policies of a meta policy, but for only one rule of its conversion. */
  lemma ConversionIsStricter()
    ensures PolicyConvert.WellFormed(TWICE_A) && Plain(TWICE_A) && Convert(TWICE_A).Some?
    ensures Satisfied(TWICE_A, ONE_A)
    ensures !Accepts(Convert(TWICE_A).value.rule, Convert(TWICE_A).value.identities, ONE_A)
  {
    hide Convert; hide Eval; hide SharedEval; hide Satisfied; hide Plain; hide Convertible; hide PolicyConvert.WellFormed;
    TwiceAShared();
    ConvertSucceeds(TWICE_A);
    assert RejectsUnknownClasses(ONE_A.sat);
    ConvertMeaning(TWICE_A, ONE_A);
  }
}
