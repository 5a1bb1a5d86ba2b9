/**
 When an implicit meta policy and its conversion accept the same signers. The meta policy lets a signer
 count for several sub-policies, its conversion does not (`common/policies/implicitmeta.go`, `convert.go`).
 */
module MetaAgreement {
  import opened Wrappers
  import opened SignaturePolicy
  import opened OneLevelGates
  import opened SeparateGates
  import opened PolicyConvert
  import opened ImplicitMeta

  // ---------------------------------------------------------------------------------------------
  // What a policy depends on
  // ---------------------------------------------------------------------------------------------

  /** Identity `i` satisfies some principal at a leaf of the policy. */
  predicate PolicyConcerns(p: Policy, s: Signers, i: nat)
    requires PolicyConvert.WellFormed(p)
  {
    match p
    case Signature(env) => Concerns(env.rule, env.identities, s, i)
    case Meta(_, subs) => exists j | 0 <= j < |subs| :: PolicyConcerns(subs[j], s, i)
    case Opaque => false
  }

  predicate PolicyWithin(p: Policy, s: Signers, region: set<nat>)
    requires PolicyConvert.WellFormed(p)
  {
    forall i | 0 <= i < |s.ids| && PolicyConcerns(p, s, i) :: i in region
  }

  function PolicyConcerned(p: Policy, s: Signers): set<nat>
    requires PolicyConvert.WellFormed(p)
  {
    set i: nat | i < |s.ids| && PolicyConcerns(p, s, i)
  }

  lemma PolicyWithinConcerned(p: Policy, s: Signers)
    requires PolicyConvert.WellFormed(p)
    ensures PolicyWithin(p, s, PolicyConcerned(p, s))
  {
  }

  lemma SubWithin(p: Policy, s: Signers, region: set<nat>, j: nat)
    requires p.Meta? && PolicyConvert.WellFormed(p) && PolicyWithin(p, s, region) && j < |p.subs|
    ensures PolicyWithin(p.subs[j], s, region)
  {
  }

  /** A policy marks only identities that concern it. */
  lemma {:induction false} SharedFrame(p: Policy, s: Signers, used: Used, region: set<nat>)
    requires PolicyConvert.WellFormed(p) && |used| == |s.ids| && PolicyWithin(p, s, region)
    ensures SameOutside(used, SharedEval(p, s, used).used, region)
    decreases p, 1
  {
    match p
    case Signature(env) =>
      EvalFrame(env.rule, env.identities, s, used, used, region);
    case Meta(_, subs) =>
      forall j | 0 <= j < |subs| ensures PolicyWithin(subs[j], s, region) {
        SubWithin(p, s, region, j);
      }
      SharedAllFrame(subs, s, used, region);
    case Opaque =>
  }

  lemma {:induction false} SharedAllFrame(subs: seq<Policy>, s: Signers, used: Used, region: set<nat>)
    requires AllWellFormed(subs) && |used| == |s.ids| && forall j | 0 <= j < |subs| :: PolicyWithin(subs[j], s, region)
    ensures SameOutside(used, SharedAll(subs, s, used).used, region)
    decreases subs, 0
  {
    hide SharedEval; hide PolicyWithin; hide PolicyConvert.WellFormed;
    if subs != [] {
      SharedFrame(subs[0], s, used, region);
      SharedAllFrame(subs[1..], s, After(SharedEval(subs[0], s, used), used), region);
    }
  }

  // ---------------------------------------------------------------------------------------------
  // Sub-policies that do not compete for signers
  // ---------------------------------------------------------------------------------------------

  /** A threshold as `NewImplicitMetaPolicy` sets it. */
  predicate Usual(threshold: int, n: nat) {
    threshold > 0 || (threshold == 0 && n == 0)
  }

  predicate ApartPolicies(subs: seq<Policy>, s: Signers)
    requires AllWellFormed(subs)
  {
    forall i, j | 0 <= i < j < |subs| :: PolicyConcerned(subs[i], s) !! PolicyConcerned(subs[j], s)
  }

  /** No signer concerns two sub-policies of a meta policy that asks for more than one of them. */
  predicate NoContest(p: Policy, s: Signers)
    requires PolicyConvert.WellFormed(p)
  {
    match p
    case Signature(_) => true
    case Opaque => true
    case Meta(threshold, subs) =>
      && Usual(threshold, |subs|)
      && (threshold <= 1 || ApartPolicies(subs, s))
      && forall j | 0 <= j < |subs| :: NoContest(subs[j], s)
  }

  predicate Unmarked(used: Used, region: set<nat>) {
    forall i | 0 <= i < |used| && i in region :: !used[i]
  }

  lemma SubUnmarked(p: Policy, s: Signers, used: Used, j: nat)
    requires p.Meta? && PolicyConvert.WellFormed(p) && Unmarked(used, PolicyConcerned(p, s)) && j < |p.subs|
    ensures Unmarked(used, PolicyConcerned(p.subs[j], s))
  {
  }

  /** While nobody who concerns it is taken, such a policy accepts with shared marks exactly when it is satisfied. */
  lemma {:induction false} SharedIsSatisfied(p: Policy, s: Signers, used: Used)
    requires PolicyConvert.WellFormed(p) && NoContest(p, s) && |used| == |s.ids| && Unmarked(used, PolicyConcerned(p, s))
    ensures SharedEval(p, s, used).ok <==> Satisfied(p, s)
    decreases p, 1
  {
    match p
    case Signature(env) =>
      WithinConcerned(env.rule, env.identities, s);
      EvalFrame(env.rule, env.identities, s, used, Fresh(|s.ids|), Concerned(env.rule, env.identities, s));
    case Meta(threshold, subs) =>
      forall j | 0 <= j < |subs| ensures Unmarked(used, PolicyConcerned(subs[j], s)) {
        SubUnmarked(p, s, used, j);
      }
      hide SharedAll; hide CountSatisfied; hide PolicyConcerned;
      if threshold <= 1 {
        AnyCount(subs, s, used);
      } else {
        ApartCountSatisfied(subs, s, used);
      }
    case Opaque =>
  }

  /** Up to the first sub-policy that accepts, no marks are left. */
  lemma {:induction false} AnyCount(subs: seq<Policy>, s: Signers, used: Used)
    requires AllWellFormed(subs) && |used| == |s.ids|
    requires forall j | 0 <= j < |subs| :: NoContest(subs[j], s) && Unmarked(used, PolicyConcerned(subs[j], s))
    ensures SharedAll(subs, s, used).count > 0 <==> CountSatisfied(subs, s) > 0
    decreases subs, 0
  {
    hide SharedEval; hide Satisfied; hide NoContest; hide PolicyConcerned; hide Unmarked; hide PolicyConvert.WellFormed;
    if subs != [] {
      SharedIsSatisfied(subs[0], s, used);
      if !SharedEval(subs[0], s, used).ok {
        AnyCount(subs[1..], s, used);
      }
    }
  }

  lemma {:induction false} ApartCountSatisfied(subs: seq<Policy>, s: Signers, used: Used)
    requires AllWellFormed(subs) && |used| == |s.ids| && ApartPolicies(subs, s)
    requires forall j | 0 <= j < |subs| :: NoContest(subs[j], s) && Unmarked(used, PolicyConcerned(subs[j], s))
    ensures SharedAll(subs, s, used).count == CountSatisfied(subs, s)
    decreases subs, 0
  {
    hide SharedEval; hide Satisfied; hide NoContest; hide PolicyConcerned; hide PolicyConvert.WellFormed; hide PolicyWithin;
    if subs != [] {
      SharedIsSatisfied(subs[0], s, used);
      PolicyWithinConcerned(subs[0], s);
      SharedFrame(subs[0], s, used, PolicyConcerned(subs[0], s));
      var next := After(SharedEval(subs[0], s, used), used);
      forall j | 0 <= j < |subs[1..]| ensures Unmarked(next, PolicyConcerned(subs[1..][j], s)) {
        assert PolicyConcerned(subs[0], s) !! PolicyConcerned(subs[j + 1], s);
        assert Unmarked(used, PolicyConcerned(subs[j + 1], s));
      }
      assert ApartPolicies(subs[1..], s) by {
        forall i, j | 0 <= i < j < |subs[1..]| ensures PolicyConcerned(subs[1..][i], s) !! PolicyConcerned(subs[1..][j], s) {
          assert subs[1..][i] == subs[i + 1] && subs[1..][j] == subs[j + 1];
        }
      }
      ApartCountSatisfied(subs[1..], s, next);
    }
  }

  /** Such a policy and its conversion accept the same signers. */
  lemma ConversionAgrees(p: Policy, s: Signers)
    requires PolicyConvert.WellFormed(p) && NoContest(p, s) && RejectsUnknownClasses(s.sat) && Convert(p).Some?
    ensures Accepts(Convert(p).value.rule, Convert(p).value.identities, s) <==> Satisfied(p, s)
  {
    hide Eval; hide SharedEval; hide Convert; hide Satisfied; hide NoContest; hide PolicyConcerned; hide PolicyConvert.WellFormed;
    ConvertMeaning(p, s);
    SharedIsSatisfied(p, s, Fresh(|s.ids|));
  }

  // ---------------------------------------------------------------------------------------------
  // Meta policies over leaves: exactly when the two agree
  // ---------------------------------------------------------------------------------------------

  /** Every sub-policy asks for one signature. */
  predicate LeafPolicies(subs: seq<Policy>) {
    forall i | 0 <= i < |subs| :: subs[i].Signature? && subs[i].env.rule.SignedBy?
  }

  /** The identity satisfies the principal of sub-policy `i`. */
  predicate Fulfils(subs: seq<Policy>, sat: (Identity, Principal) -> bool, id: Identity, i: nat)
    requires AllWellFormed(subs) && LeafPolicies(subs)
  {
    i < |subs| && sat(id, subs[i].env.identities[subs[i].env.rule.index])
  }

  /** The sub-policies that anybody satisfies. */
  ghost function Fulfillable(subs: seq<Policy>, sat: (Identity, Principal) -> bool): set<nat>
    requires AllWellFormed(subs) && LeafPolicies(subs)
  {
    set i: nat | i < |subs| && CanBeFulfilled(subs, sat, i)
  }

  ghost predicate CanBeFulfilled(subs: seq<Policy>, sat: (Identity, Principal) -> bool, i: nat)
    requires AllWellFormed(subs) && LeafPolicies(subs)
  {
    exists id :: Fulfils(subs, sat, id, i)
  }

  /** One of the identities satisfies the principal of sub-policy `i`. */
  predicate FulfilledBy(subs: seq<Policy>, sat: (Identity, Principal) -> bool, ids: seq<Identity>, i: nat)
    requires AllWellFormed(subs) && LeafPolicies(subs)
  {
    exists m | 0 <= m < |ids| :: Fulfils(subs, sat, ids[m], i)
  }

  predicate FulfilsBoth(subs: seq<Policy>, sat: (Identity, Principal) -> bool, id: Identity, i: nat, j: nat)
    requires AllWellFormed(subs) && LeafPolicies(subs)
  {
    i < j && Fulfils(subs, sat, id, i) && Fulfils(subs, sat, id, j)
  }

  /** Somebody satisfies two sub-policies. */
  ghost predicate Contested(subs: seq<Policy>, sat: (Identity, Principal) -> bool)
    requires AllWellFormed(subs) && LeafPolicies(subs)
  {
    exists id, i, j :: FulfilsBoth(subs, sat, id, i, j)
  }

  lemma LeafSatisfied(subs: seq<Policy>, s: Signers, i: nat)
    requires AllWellFormed(subs) && LeafPolicies(subs) && i < |subs|
    ensures Satisfied(subs[i], s) <==> FulfilledBy(subs, s.sat, s.ids, i)
  {
    var env := subs[i].env;
    var p, used := env.identities[env.rule.index], Fresh(|s.ids|);
    var m := FirstFit(p, s, used, 0);
    if m < |used| {
      assert Fulfils(subs, s.sat, s.ids[m], i);
    }
    if k :| 0 <= k < |s.ids| && Fulfils(subs, s.sat, s.ids[k], i) {
      assert Fits(p, s, used, k);
    }
  }

  function SatisfiedSet(subs: seq<Policy>, s: Signers): set<nat>
    requires AllWellFormed(subs)
  {
    set i: nat | i < |subs| && Satisfied(subs[i], s)
  }

  lemma {:induction false} CountSnoc(subs: seq<Policy>, last: Policy, s: Signers)
    requires AllWellFormed(subs) && PolicyConvert.WellFormed(last)
    ensures CountSatisfied(subs + [last], s) == CountSatisfied(subs, s) + (if Satisfied(last, s) then 1 else 0)
    decreases |subs|
  {
    hide Satisfied; hide PolicyConvert.WellFormed;
    if subs == [] {
      assert subs + [last] == [last] && [last][1..] == [];
    } else {
      assert (subs + [last])[1..] == subs[1..] + [last];
      CountSnoc(subs[1..], last, s);
    }
  }

  lemma {:induction false} CountIsSize(subs: seq<Policy>, s: Signers)
    requires AllWellFormed(subs)
    ensures CountSatisfied(subs, s) == |SatisfiedSet(subs, s)|
    decreases |subs|
  {
    hide Satisfied; hide PolicyConvert.WellFormed;
    if subs == [] {
      assert SatisfiedSet(subs, s) == {};
    } else {
      var n := |subs| - 1;
      var front, last := subs[..n], subs[n];
      CountIsSize(front, s);
      CountSnoc(front, last, s);
      assert subs == front + [last];
      SatisfiedSetSnoc(subs, s);
    }
  }

  lemma SatisfiedSetSnoc(subs: seq<Policy>, s: Signers)
    requires AllWellFormed(subs) && subs != []
    ensures var n := |subs| - 1;
            |SatisfiedSet(subs, s)| == |SatisfiedSet(subs[..n], s)| + (if Satisfied(subs[n], s) then 1 else 0)
  {
    hide Satisfied; hide PolicyConvert.WellFormed;
    var n := |subs| - 1;
    var before, after := SatisfiedSet(subs[..n], s), SatisfiedSet(subs, s);
    assert forall i | 0 <= i < n :: subs[..n][i] == subs[i];
    if Satisfied(subs[n], s) {
      assert after == before + {n} && n !in before;
    } else {
      assert after == before;
    }
  }

  function Marked(used: Used): (n: nat)
    ensures n <= |used|
  {
    if used == [] then 0 else (if used[0] then 1 else 0) + Marked(used[1..])
  }

  lemma {:induction false} MarkOne(used: Used, i: nat)
    requires i < |used| && !used[i]
    ensures Marked(used[i := true]) == Marked(used) + 1
    decreases |used|
  {
    if i > 0 {
      MarkOne(used[1..], i - 1);
      assert used[i := true][1..] == used[1..][i - 1 := true];
    }
  }

  lemma {:induction false} NoneMarked(n: nat)
    ensures Marked(Fresh(n)) == 0
  {
    if n > 0 {
      NoneMarked(n - 1);
      assert Fresh(n)[1..] == Fresh(n - 1);
    }
  }

  /** With shared marks, no more leaves are met than there are free signers. */
  lemma {:induction false} NoMoreThanSigners(subs: seq<Policy>, s: Signers, used: Used)
    requires AllWellFormed(subs) && LeafPolicies(subs) && |used| == |s.ids|
    ensures SharedAll(subs, s, used).count + Marked(used) <= |s.ids|
    decreases |subs|
  {
    if subs != [] {
      var v, env := SharedEval(subs[0], s, used), subs[0].env;
      if v.ok {
        MarkOne(used, FirstFit(env.identities[env.rule.index], s, used, 0));
      }
      NoMoreThanSigners(subs[1..], s, After(v, used));
    }
  }

  /** One signer for each of the given sub-policies. */
  lemma {:induction false} SignersFor(subs: seq<Policy>, sat: (Identity, Principal) -> bool, wanted: set<nat>) returns (ids: seq<Identity>)
    requires AllWellFormed(subs) && LeafPolicies(subs) && wanted <= Fulfillable(subs, sat)
    ensures |ids| == |wanted| && forall i | i in wanted :: FulfilledBy(subs, sat, ids, i)
    decreases |wanted|
  {
    hide Fulfils;
    if wanted == {} {
      ids := [];
    } else {
      var i :| i in wanted;
      var id :| Fulfils(subs, sat, id, i);
      var rest := SignersFor(subs, sat, wanted - {i});
      ids := [id] + rest;
      assert Fulfils(subs, sat, ids[0], i);
      forall k | k in wanted && k != i ensures FulfilledBy(subs, sat, ids, k) {
        assert FulfilledBy(subs, sat, rest, k);
        var m :| 0 <= m < |rest| && Fulfils(subs, sat, rest[m], k);
        assert Fulfils(subs, sat, ids[m + 1], k);
      }
    }
  }

  lemma {:induction false} SubsetOfSize<T>(a: set<T>, n: nat) returns (b: set<T>)
    requires n <= |a|
    ensures b <= a && |b| == n
    decreases |a|
  {
    b := a;
    if n < |a| {
      var x :| x in a;
      b := SubsetOfSize(a - {x}, n);
    }
  }

  /** Where somebody satisfies two sub-policies and enough can be satisfied, one signer too few can satisfy the meta policy. */
  lemma OneSignerTooFew(threshold: int, subs: seq<Policy>, sat: (Identity, Principal) -> bool) returns (ids: seq<Identity>)
    requires AllWellFormed(subs) && LeafPolicies(subs) && Contested(subs, sat) && 2 <= threshold <= |Fulfillable(subs, sat)|
    ensures |ids| == threshold - 1 && CountSatisfied(subs, Signers(ids, sat)) >= threshold
  {
    hide Fulfils; hide CountSatisfied; hide Satisfied; hide SatisfiedSet;
    var id, i, j :| FulfilsBoth(subs, sat, id, i, j);
    FulfilsIndex(subs, sat, id, i);
    FulfilsIndex(subs, sat, id, j);
    var others := Fulfillable(subs, sat) - {i, j};
    assert |others| == |Fulfillable(subs, sat)| - 2 by {
      assert Fulfillable(subs, sat) == others + {i, j} && |{i, j}| == 2;
    }
    var chosen := SubsetOfSize(others, threshold - 2);
    var rest := SignersFor(subs, sat, chosen);
    ids := [id] + rest;
    var s, wanted := Signers(ids, sat), chosen + {i, j};
    assert |wanted| == threshold by { assert |{i, j}| == 2 && chosen !! {i, j}; }
    forall k | k in wanted ensures k in SatisfiedSet(subs, s) {
      if k in chosen {
        assert FulfilledBy(subs, sat, rest, k);
        var m :| 0 <= m < |rest| && Fulfils(subs, sat, rest[m], k);
        assert s.ids[m + 1] == rest[m];
        InSatisfiedSet(subs, s, k, m + 1);
      } else {
        InSatisfiedSet(subs, s, k, 0);
      }
    }
    SubsetSize(wanted, SatisfiedSet(subs, s));
    CountIsSize(subs, s);
  }

  lemma FulfilsIndex(subs: seq<Policy>, sat: (Identity, Principal) -> bool, id: Identity, i: nat)
    requires AllWellFormed(subs) && LeafPolicies(subs) && Fulfils(subs, sat, id, i)
    ensures i in Fulfillable(subs, sat)
  {
  }

  lemma InSatisfiedSet(subs: seq<Policy>, s: Signers, i: nat, m: nat)
    requires AllWellFormed(subs) && LeafPolicies(subs) && m < |s.ids| && Fulfils(subs, s.sat, s.ids[m], i)
    ensures i in SatisfiedSet(subs, s)
  {
    LeafSatisfied(subs, s, i);
  }

  /** The conversion and the meta policy accept the same signers, whoever they are. */
  ghost predicate AlwaysAgree(threshold: int, subs: seq<Policy>, sat: (Identity, Principal) -> bool)
    requires AllWellFormed(subs) && ConvertAll(threshold, subs).Some?
  {
    forall ids: seq<Identity> :: AgreeOn(threshold, subs, Signers(ids, sat))
  }

  predicate AgreeOn(threshold: int, subs: seq<Policy>, s: Signers)
    requires AllWellFormed(subs) && ConvertAll(threshold, subs).Some?
  {
    var p, env := Meta(threshold, subs), ConvertAll(threshold, subs).value;
    Accepts(env.rule, env.identities, s) <==> Satisfied(p, s)
  }

  /** Why the two agree: one is enough, too few can be satisfied at all, or nobody satisfies two. */
  ghost predicate Harmless(threshold: int, subs: seq<Policy>, sat: (Identity, Principal) -> bool)
    requires AllWellFormed(subs) && LeafPolicies(subs)
  {
    threshold <= 1 || |Fulfillable(subs, sat)| < threshold || !Contested(subs, sat)
  }

  lemma LeavesConvert(threshold: int, subs: seq<Policy>)
    requires AllWellFormed(subs) && LeafPolicies(subs)
    ensures ConvertAll(threshold, subs).Some?
  {
    hide ConvertAll;
    ConvertAllSucceeds(threshold, subs);
  }

  lemma UncontestedIsApart(threshold: int, subs: seq<Policy>, s: Signers)
    requires AllWellFormed(subs) && LeafPolicies(subs) && !Contested(subs, s.sat)
    ensures ApartPolicies(subs, s)
  {
    forall i: nat, j: nat | i < j < |subs| ensures PolicyConcerned(subs[i], s) !! PolicyConcerned(subs[j], s) {
      forall m | m in PolicyConcerned(subs[i], s) ensures m !in PolicyConcerned(subs[j], s) {
        assert m in PolicyConcerned(subs[j], s) ==> FulfilsBoth(subs, s.sat, s.ids[m], i, j);
      }
    }
  }

  lemma SatisfiedIsFulfillable(subs: seq<Policy>, s: Signers)
    requires AllWellFormed(subs) && LeafPolicies(subs)
    ensures CountSatisfied(subs, s) <= |Fulfillable(subs, s.sat)|
  {
    hide Satisfied; hide CountSatisfied; hide Fulfils;
    CountIsSize(subs, s);
    forall i | i in SatisfiedSet(subs, s) ensures i in Fulfillable(subs, s.sat) {
      LeafSatisfied(subs, s, i);
      var m :| 0 <= m < |s.ids| && Fulfils(subs, s.sat, s.ids[m], i);
    }
    SubsetSize(SatisfiedSet(subs, s), Fulfillable(subs, s.sat));
  }

  lemma HarmlessAgrees(threshold: int, subs: seq<Policy>, s: Signers)
    requires AllWellFormed(subs) && LeafPolicies(subs) && Usual(threshold, |subs|) && RejectsUnknownClasses(s.sat)
    requires Harmless(threshold, subs, s.sat) && ConvertAll(threshold, subs).Some?
    ensures AgreeOn(threshold, subs, s)
  {
    hide Eval; hide ConvertAll; hide CountSatisfied; hide Fulfillable; hide Contested; hide PolicyConcerned; hide RejectsUnknownClasses;
    var p := Meta(threshold, subs);
    if threshold <= 1 || !Contested(subs, s.sat) {
      if threshold > 1 {
        UncontestedIsApart(threshold, subs, s);
      }
      ConversionAgrees(p, s);
    } else {
      SatisfiedIsFulfillable(subs, s);
      assert Plain(p) || subs == [];
      if Accepts(Convert(p).value.rule, Convert(p).value.identities, s) && subs != [] {
        ConversionIsAtLeastAsStrict(p, s);
      } else if subs == [] {
        ConversionAgrees(p, s);
      }
    }
  }

  /** A meta policy over leaves and its conversion accept the same signers, whoever they are, exactly when it is harmless. */
  lemma AgreeExactlyWhenHarmless(threshold: int, subs: seq<Policy>, sat: (Identity, Principal) -> bool)
    requires AllWellFormed(subs) && LeafPolicies(subs) && Usual(threshold, |subs|) && RejectsUnknownClasses(sat)
    ensures ConvertAll(threshold, subs).Some? && (AlwaysAgree(threshold, subs, sat) <==> Harmless(threshold, subs, sat))
  {
    hide Eval; hide ConvertAll; hide Fulfillable; hide Contested; hide CountSatisfied; hide RejectsUnknownClasses; hide Accepts; hide AgreeOn;
    LeavesConvert(threshold, subs);
    if Harmless(threshold, subs, sat) {
      forall ids: seq<Identity> ensures AgreeOn(threshold, subs, Signers(ids, sat)) {
        HarmlessAgrees(threshold, subs, Signers(ids, sat));
      }
    } else {
      var ids := OneSignerTooFew(threshold, subs, sat);
      TooFewDisagree(threshold, subs, Signers(ids, sat));
    }
  }

  lemma TooFewDisagree(threshold: int, subs: seq<Policy>, s: Signers)
    requires AllWellFormed(subs) && LeafPolicies(subs) && RejectsUnknownClasses(s.sat) && ConvertAll(threshold, subs).Some?
    requires |s.ids| < threshold <= CountSatisfied(subs, s)
    ensures !AgreeOn(threshold, subs, s)
  {
    hide Eval; hide ConvertAll; hide RejectsUnknownClasses; hide SharedAll; hide CountSatisfied;
    var p := Meta(threshold, subs);
    ConvertMeaning(p, s);
    NoMoreThanSigners(subs, s, Fresh(|s.ids|));
  }
}
