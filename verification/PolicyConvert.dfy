/**
 `common/policies/convert.go`: turning an implicit meta policy into one signature policy. The
 sub-policies' principals are merged without duplicates and the leaves are renumbered to match.
 */
module PolicyConvert {
  import opened Wrappers
  import opened SignaturePolicy

  /** A `cb.SignaturePolicyEnvelope`. */
  datatype Envelope = Envelope(rule: Rule, identities: seq<Principal>)

  /** A policy object: a compiled signature policy, an implicit meta policy, or one that has no conversion. */
  datatype Policy = Signature(env: Envelope) | Meta(threshold: int, subs: seq<Policy>) | Opaque

  predicate EnvelopeCompiles(env: Envelope) {
    Compiles(env.rule, env.identities)
  }

  /** Signature policies exist only once they have compiled. */
  predicate WellFormed(p: Policy) {
    match p
    case Signature(env) => EnvelopeCompiles(env)
    case Meta(_, subs) => forall i | 0 <= i < |subs| :: WellFormed(subs[i])
    case Opaque => true
  }

  predicate AllWellFormed(ps: seq<Policy>) {
    forall i | 0 <= i < |ps| :: WellFormed(ps[i])
  }

  // ---------------------------------------------------------------------------------------------
  // Principal keys
  // ---------------------------------------------------------------------------------------------

  function Digits(n: nat): string {
    if n < 10 then [('0' as int + n) as char] else Digits(n / 10) + Digits(n % 10)
  }

  /** `MSPPrincipal_Classification.String`: a name, or the number for a value outside the enumeration. */
  function ClassName(c: Classification): string {
    match c
    case ROLE => "ROLE"
    case ORGANIZATION_UNIT => "ORGANIZATION_UNIT"
    case IDENTITY => "IDENTITY"
    case ANONYMITY => "ANONYMITY"
    case COMBINED => "COMBINED"
    case OTHER(n) => if n < 0 then "-" + Digits(-n) else Digits(n)
  }

  /** The string under which `merge` deduplicates principals. */
  function PrincipalKey(p: Principal): string {
    ClassName(p.classification) + p.principal
  }

  lemma {:induction false} DigitsStart(n: nat)
    ensures |Digits(n)| > 0 && '0' <= Digits(n)[0] <= '9'
    decreases n
  {
    if n >= 10 {
      DigitsStart(n / 10);
      assert Digits(n)[0] == Digits(n / 10)[0];
    }
  }

  function Letter(c: Classification): char {
    match c
    case ROLE => 'R'
    case ORGANIZATION_UNIT => 'O'
    case IDENTITY => 'I'
    case ANONYMITY => 'A'
    case COMBINED => 'C'
    case OTHER(_) => '0'
  }

  lemma KeyStart(p: Principal)
    ensures |PrincipalKey(p)| > 0
    ensures !p.classification.OTHER? ==> PrincipalKey(p)[0] == Letter(p.classification)
    ensures p.classification.OTHER? ==> PrincipalKey(p)[0] == '-' || '0' <= PrincipalKey(p)[0] <= '9'
  {
    if p.classification.OTHER? {
      var n := p.classification.number;
      if n >= 0 {
        DigitsStart(n);
      }
    }
  }

  /** Principals with the same key are equal, unless both have a classification outside the enumeration. */
  lemma KeyCollision(p: Principal, q: Principal)
    requires PrincipalKey(p) == PrincipalKey(q)
    ensures p == q || (p.classification.OTHER? && q.classification.OTHER?)
  {
    KeyStart(p);
    KeyStart(q);
    if !p.classification.OTHER? {
      assert p.classification == q.classification;
      var n := |ClassName(p.classification)|;
      assert p.principal == PrincipalKey(p)[n..] && q.principal == PrincipalKey(q)[n..];
    }
  }

  /** The keys do collide outside the enumeration: class 5 followed by "7" reads like class 57. */
  lemma KeysCollideOutsideTheEnumeration()
    ensures PrincipalKey(Principal(OTHER(5), "7")) == PrincipalKey(Principal(OTHER(57), ""))
  {
    assert Digits(57) == Digits(5) + Digits(7) == "57";
  }

  /** No identity satisfies a principal whose classification is outside the enumeration. */
  ghost predicate RejectsUnknownClasses(sat: (Identity, Principal) -> bool) {
    forall id: Identity, p: Principal :: sat(id, p) ==> !p.classification.OTHER?
  }

  lemma SameKeySameSat(sat: (Identity, Principal) -> bool, id: Identity, p: Principal, q: Principal)
    requires RejectsUnknownClasses(sat) && PrincipalKey(p) == PrincipalKey(q)
    ensures sat(id, p) == sat(id, q)
  {
    KeyCollision(p, q);
  }

  // ---------------------------------------------------------------------------------------------
  // Merging
  // ---------------------------------------------------------------------------------------------

  /** The entry of `idMap` for a key: the last principal that has it. */
  function IndexOf(ids: seq<Principal>, key: string): Option<nat> {
    if ids == [] then None
    else if PrincipalKey(ids[|ids| - 1]) == key then Some(|ids| - 1)
    else IndexOf(ids[..|ids| - 1], key)
  }

  lemma {:induction false} IndexOfExact(ids: seq<Principal>, key: string)
    ensures IndexOf(ids, key).Some? ==> IndexOf(ids, key).value < |ids| && PrincipalKey(ids[IndexOf(ids, key).value]) == key
    ensures IndexOf(ids, key).None? ==> forall i | 0 <= i < |ids| :: PrincipalKey(ids[i]) != key
    decreases |ids|
  {
    hide PrincipalKey;
    if ids != [] {
      IndexOfExact(ids[..|ids| - 1], key);
    }
  }

  /** The principals `ids` followed by those of `more` whose key is new. */
  function MergeIdentities(ids: seq<Principal>, more: seq<Principal>): seq<Principal> {
    if more == [] then ids
    else
      var m := MergeIdentities(ids, more[..|more| - 1]);
      var p := more[|more| - 1];
      if IndexOf(m, PrincipalKey(p)).Some? then m else m + [p]
  }

  /** `idRemap`: where each principal of `more` is to be found after merging. */
  function Remapping(ids: seq<Principal>, more: seq<Principal>): seq<nat> {
    if more == [] then []
    else
      var m := MergeIdentities(ids, more[..|more| - 1]);
      var j := IndexOf(m, PrincipalKey(more[|more| - 1]));
      Remapping(ids, more[..|more| - 1]) + [if j.Some? then j.value else |m|]
  }

  predicate DistinctPrincipals(ids: seq<Principal>) {
    forall i, j | 0 <= i < j < |ids| :: PrincipalKey(ids[i]) != PrincipalKey(ids[j])
  }

  /** Each number in `f` leads from a principal of `from` to one of `to` with the same key. */
  predicate Leads(f: seq<nat>, from: seq<Principal>, to: seq<Principal>) {
    |f| == |from| && forall k | 0 <= k < |f| :: f[k] < |to| && PrincipalKey(to[f[k]]) == PrincipalKey(from[k])
  }

  /** Merging keeps the principals there are, adds no key twice, and finds every principal again. */
  lemma {:induction false} MergeExact(ids: seq<Principal>, more: seq<Principal>)
    ensures ids <= MergeIdentities(ids, more)
    ensures Leads(Remapping(ids, more), more, MergeIdentities(ids, more))
    ensures DistinctPrincipals(ids) ==> DistinctPrincipals(MergeIdentities(ids, more))
    decreases |more|
  {
    hide PrincipalKey; hide IndexOf;
    if more != [] {
      MergeExact(ids, more[..|more| - 1]);
      IndexOfExact(MergeIdentities(ids, more[..|more| - 1]), PrincipalKey(more[|more| - 1]));
    }
  }

  /** `remap` */
  function Remap(rule: Rule, f: seq<nat>, principals: seq<Principal>): Rule
    requires |f| == |principals| && Compiles(rule, principals)
  {
    match rule
    case SignedBy(k) => SignedBy(f[k])
    case NOutOf(n, rules) => NOutOf(n, seq(|rules|, i requires 0 <= i < |rules| => Remap(rules[i], f, principals)))
  }

  /** `merge` */
  function Merge(env: Envelope, that: Envelope): Envelope
    requires env.rule.NOutOf? && EnvelopeCompiles(that)
  {
    var f := Remapping(env.identities, that.identities);
    MergeExact(env.identities, that.identities);
    Envelope(NOutOf(env.rule.n, env.rule.rules + [Remap(that.rule, f, that.identities)]),
             MergeIdentities(env.identities, that.identities))
  }

  /** The envelope that `Convert` grows by merging, as the object it is in the source. */
  class Converted {
    var identities: seq<Principal>
    var n: int
    var rules: seq<Rule>

    constructor (threshold: int)
      ensures identities == [] && n == threshold && rules == []
    {
      identities, n, rules := [], threshold, [];
    }

    ghost function Value(): Envelope
      reads this
    {
      Envelope(NOutOf(n, rules), identities)
    }

    /** `merge`, whose second argument is left alone. */
    method MergeWith(that: Envelope)
      requires EnvelopeCompiles(that)
      modifies this
      ensures Value() == Merge(old(Value()), that)
    {
      hide PrincipalKey; hide Compiles; hide Remap; hide IndexOf; hide Indexes;
      var ids := identities;
      var idMap: map<string, nat> := IndexPrincipals(identities);
      var idRemap: seq<nat> := [];
      for i := 0 to |that.identities|
        invariant unchanged(this)
        invariant ids == MergeIdentities(identities, that.identities[..i])
        invariant idRemap == Remapping(identities, that.identities[..i])
        invariant Indexes(idMap, ids)
      {
        assert that.identities[..i + 1][..i] == that.identities[..i];
        var id := that.identities[i];
        var key := PrincipalKey(id);
        IndexesLookup(idMap, ids, key);
        if key in idMap {
          idRemap := idRemap + [idMap[key]];
        } else {
          idRemap := idRemap + [|ids|];
          IndexesSnoc(idMap, ids, id);
          idMap := idMap[key := |ids|];
          ids := ids + [id];
        }
      }
      assert that.identities[..|that.identities|] == that.identities;
      MergeExact(identities, that.identities);
      identities := ids;
      rules := rules + [Remap(that.rule, idRemap, that.identities)];
    }
  }

  ghost predicate Indexes(idMap: map<string, nat>, ids: seq<Principal>) {
    forall key :: IndexOf(ids, key) == if key in idMap then Some(idMap[key]) else None
  }

  lemma IndexesLookup(idMap: map<string, nat>, ids: seq<Principal>, key: string)
    requires Indexes(idMap, ids)
    ensures IndexOf(ids, key) == if key in idMap then Some(idMap[key]) else None
  {
    hide IndexOf;
  }

  lemma IndexesSnoc(idMap: map<string, nat>, ids: seq<Principal>, p: Principal)
    requires Indexes(idMap, ids)
    ensures Indexes(idMap[PrincipalKey(p) := |ids|], ids + [p])
  {
    hide PrincipalKey;
    assert (ids + [p])[..|ids|] == ids;
  }

  /** The first loop of `merge`. */
  method IndexPrincipals(ids: seq<Principal>) returns (idMap: map<string, nat>)
    ensures Indexes(idMap, ids)
  {
    hide PrincipalKey;
    idMap := map[];
    for i := 0 to |ids|
      invariant Indexes(idMap, ids[..i])
    {
      assert ids[..i + 1] == ids[..i] + [ids[i]];
      IndexesSnoc(idMap, ids[..i], ids[i]);
      idMap := idMap[PrincipalKey(ids[i]) := i];
    }
    assert ids[..|ids|] == ids;
  }

  // ---------------------------------------------------------------------------------------------
  // Converting
  // ---------------------------------------------------------------------------------------------

  lemma {:induction false} RemapCompiles(rule: Rule, f: seq<nat>, from: seq<Principal>, to: seq<Principal>)
    requires Compiles(rule, from) && Leads(f, from, to)
    ensures Compiles(Remap(rule, f, from), to)
  {
    match rule
    case SignedBy(k) =>
    case NOutOf(_, rules) =>
      forall i | 0 <= i < |rules| ensures Compiles(Remap(rules[i], f, from), to) {
        RemapCompiles(rules[i], f, from, to);
      }
  }

  lemma {:induction false} CompilesWithMore(rule: Rule, ids: seq<Principal>, more: seq<Principal>)
    requires Compiles(rule, ids) && ids <= more
    ensures Compiles(rule, more)
  {
    match rule
    case SignedBy(k) =>
    case NOutOf(_, rules) =>
      forall i | 0 <= i < |rules| ensures Compiles(rules[i], more) {
        CompilesWithMore(rules[i], ids, more);
      }
  }

  lemma MergeCompiles(env: Envelope, that: Envelope)
    requires env.rule.NOutOf? && EnvelopeCompiles(env) && EnvelopeCompiles(that)
    ensures EnvelopeCompiles(Merge(env, that))
  {
    var m := Merge(env, that);
    MergeExact(env.identities, that.identities);
    RemapCompiles(that.rule, Remapping(env.identities, that.identities), that.identities, m.identities);
    forall i | 0 <= i < |m.rule.rules| ensures Compiles(m.rule.rules[i], m.identities) {
      if i < |env.rule.rules| {
        CompilesWithMore(env.rule.rules[i], env.identities, m.identities);
      }
    }
  }

  /** `Convert`; `None` stands for the error on a sub-policy that has no conversion. */
  function Convert(p: Policy): (r: Option<Envelope>)
    requires WellFormed(p)
    ensures r.Some? ==> EnvelopeCompiles(r.value)
    decreases p, 1
  {
    match p
    case Signature(env) => Some(env)
    case Opaque => None
    case Meta(threshold, subs) => ConvertAll(threshold, subs)
  }

  function ConvertAll(threshold: int, subs: seq<Policy>): (r: Option<Envelope>)
    requires AllWellFormed(subs)
    ensures r.Some? ==> EnvelopeCompiles(r.value) && r.value.rule.NOutOf? && r.value.rule.n == threshold
    decreases subs, 0
  {
    if subs == [] then Some(Envelope(NOutOf(threshold, []), []))
    else
      var converted := ConvertAll(threshold, subs[..|subs| - 1]);
      var sub := Convert(subs[|subs| - 1]);
      if converted.None? || sub.None? then None
      else
        MergeCompiles(converted.value, sub.value);
        Some(Merge(converted.value, sub.value))
  }
}
