/**
 `common/cauthdsl/cauthdsl.go`: the evaluator that `compile` builds from a signature policy. Each
 signer counts once: a leaf takes the first identity not yet used that satisfies its principal.
 */
module SignaturePolicy {
  import opened Wrappers

  /** `MSPPrincipal_Classification`, with the numbers outside the enumeration. */
  datatype Classification = ROLE | ORGANIZATION_UNIT | IDENTITY | ANONYMITY | COMBINED | OTHER(number: int)

  /** An `MSPPrincipal`; its bytes are written as characters. */
  datatype Principal = Principal(classification: Classification, principal: string)

  /** An identity, known by its identifier. */
  datatype Identity = Identity(mspid: string, id: string)

  /** A `cb.SignaturePolicy`; `Absent` is a nil element or one of unknown type. */
  datatype Rule = SignedBy(index: int) | NOutOf(n: int, rules: seq<Rule>) | Absent

  /** The identities under evaluation, and which principals they satisfy. */
  datatype Signers = Signers(ids: seq<Identity>, sat: (Identity, Principal) -> bool)

  type Used = seq<bool>

  /** `compile` succeeds: every leaf names one of the principals and no element is missing. */
  predicate Compiles(rule: Rule, principals: seq<Principal>) {
    match rule
    case SignedBy(k) => 0 <= k < |principals|
    case NOutOf(_, rules) => forall i | 0 <= i < |rules| :: Compiles(rules[i], principals)
    case Absent => false
  }

  predicate AllCompile(rules: seq<Rule>, principals: seq<Principal>) {
    forall i | 0 <= i < |rules| :: Compiles(rules[i], principals)
  }

  // ---------------------------------------------------------------------------------------------
  // The evaluator
  // ---------------------------------------------------------------------------------------------

  /** Identity `i` is free and satisfies the principal. */
  predicate Fits(p: Principal, s: Signers, used: Used, i: nat)
    requires |used| == |s.ids|
  {
    i < |s.ids| && !used[i] && s.sat(s.ids[i], p)
  }

  /** The first identity from `i` on that fits, or the number of identities if none does. */
  function FirstFit(p: Principal, s: Signers, used: Used, i: nat): (j: nat)
    requires |used| == |s.ids| && i <= |used|
    ensures i <= j <= |used|
    ensures j < |used| ==> Fits(p, s, used, j)
    ensures forall k | i <= k < j :: !Fits(p, s, used, k)
    decreases |used| - i
  {
    if i == |used| || Fits(p, s, used, i) then i else FirstFit(p, s, used, i + 1)
  }

  datatype Verdict = Verdict(ok: bool, used: Used)

  datatype Tally = Tally(count: nat, used: Used)

  /** The verdict of the compiled evaluator, and the marks it leaves. */
  function Eval(rule: Rule, principals: seq<Principal>, s: Signers, used: Used): (v: Verdict)
    requires |used| == |s.ids| && Compiles(rule, principals)
    ensures |v.used| == |used|
    decreases rule, 1
  {
    match rule
    case SignedBy(k) =>
      var i := FirstFit(principals[k], s, used, 0);
      if i < |used| then Verdict(true, used[i := true]) else Verdict(false, used)
    case NOutOf(n, rules) =>
      var t := EvalAll(rules, principals, s, used);
      Verdict(t.count >= n, t.used)
  }

  /** The loop of a gate: how many of the rules accept in turn, with the marks of those that do. */
  function EvalAll(rules: seq<Rule>, principals: seq<Principal>, s: Signers, used: Used): (t: Tally)
    requires |used| == |s.ids| && AllCompile(rules, principals)
    ensures |t.used| == |used| && t.count <= |rules|
    decreases rules, 0
  {
    if rules == [] then Tally(0, used)
    else
      var v := Eval(rules[0], principals, s, used);
      var t := EvalAll(rules[1..], principals, s, if v.ok then v.used else used);
      if v.ok then t.(count := t.count + 1) else t
  }

  function Fresh(n: nat): Used {
    seq(n, _ => false)
  }

  /** `EvaluateIdentities` of a compiled policy. */
  predicate Accepts(rule: Rule, principals: seq<Principal>, s: Signers)
    requires Compiles(rule, principals)
  {
    Eval(rule, principals, s, Fresh(|s.ids|)).ok
  }

  /** The two closures of `compile`: the leaf marks `used` in place, the gate works on a scratch copy. */
  method Evaluate(rule: Rule, principals: seq<Principal>, s: Signers, used: array<bool>) returns (ok: bool)
    requires used.Length == |s.ids| && Compiles(rule, principals)
    modifies used
    ensures Verdict(ok, used[..]) == Eval(rule, principals, s, old(used[..]))
    decreases rule
  {
    ghost var start := used[..];
    match rule
    case SignedBy(k) =>
      var i := 0;
      while i < |s.ids|
        invariant 0 <= i <= |s.ids| && used[..] == start
        invariant FirstFit(principals[k], s, start, 0) == FirstFit(principals[k], s, start, i)
      {
        if !used[i] && s.sat(s.ids[i], principals[k]) {
          used[i] := true;
          return true;
        }
        i := i + 1;
      }
      return false;
    case NOutOf(n, rules) =>
      var verified := 0;
      var scratch := new bool[used.Length];
      var i := 0;
      while i < |rules|
        invariant 0 <= i <= |rules| && fresh(scratch)
        invariant EvalAll(rules, principals, s, start) ==
                  var rest := EvalAll(rules[i..], principals, s, used[..]); Tally(verified + rest.count, rest.used)
      {
        assert rules[i..][1..] == rules[i + 1..];
        ghost var before := used[..];
        CopyInto(scratch, used);
        var accepted := Evaluate(rules[i], principals, s, scratch);
        if accepted {
          verified := verified + 1;
          CopyInto(used, scratch);
        }
        i := i + 1;
      }
      return verified >= n;
    case Absent =>
      assert false;
  }

  method CopyInto(to: array<bool>, from: array<bool>)
    requires to.Length == from.Length
    modifies to
    ensures to[..] == old(from[..])
    ensures to != from ==> from[..] == old(from[..])
  {
    forall i | 0 <= i < to.Length {
      to[i] := from[i];
    }
    assert to[..] == old(from[..]);
  }

  // ---------------------------------------------------------------------------------------------
  // Soundness
  // ---------------------------------------------------------------------------------------------

  /** A satisfying sub-tree: which rules of each gate were met, and by which identity each leaf was. */
  datatype Witness = Signer(i: nat) | Chosen(subs: seq<Choice>)

  datatype Choice = Skipped | Met(how: Witness)

  function CountMet(ws: seq<Choice>): nat {
    if ws == [] then 0 else (if ws[0].Met? then 1 else 0) + CountMet(ws[1..])
  }

  /** The witness meets the rule: enough rules of every gate, and a satisfying identity at every leaf. */
  predicate Meets(w: Witness, rule: Rule, principals: seq<Principal>, s: Signers)
    requires Compiles(rule, principals)
    decreases rule, 1
  {
    match rule
    case SignedBy(k) => w.Signer? && w.i < |s.ids| && s.sat(s.ids[w.i], principals[k])
    case NOutOf(n, rules) => w.Chosen? && CountMet(w.subs) >= n && AllMeet(w.subs, rules, principals, s)
  }

  predicate AllMeet(ws: seq<Choice>, rules: seq<Rule>, principals: seq<Principal>, s: Signers)
    requires AllCompile(rules, principals)
    decreases rules, 0
  {
    && |ws| == |rules|
    && (rules != [] ==>
          && (ws[0].Met? ==> Meets(ws[0].how, rules[0], principals, s))
          && AllMeet(ws[1..], rules[1..], principals, s))
  }

  /** The identities at the leaves, from left to right. */
  function Leaves(w: Witness): seq<nat>
    decreases w, 1
  {
    match w
    case Signer(i) => [i]
    case Chosen(subs) => AllLeaves(subs)
  }

  function AllLeaves(ws: seq<Choice>): seq<nat>
    decreases ws, 0
  {
    if ws == [] then [] else ChoiceLeaves(ws[0]) + AllLeaves(ws[1..])
  }

  function ChoiceLeaves(c: Choice): seq<nat>
    decreases c, 1
  {
    match c
    case Skipped => []
    case Met(w) => Leaves(w)
  }

  /** `after` is `before` with exactly the given identities, all free before and all different, marked. */
  predicate Marks(before: Used, after: Used, leaves: seq<nat>) {
    && |after| == |before|
    && Distinct(leaves)
    && (forall i | i in leaves :: i < |before| && !before[i])
    && (forall i | 0 <= i < |before| :: after[i] <==> before[i] || i in leaves)
  }

  lemma MarksConcat(a: Used, b: Used, c: Used, x: seq<nat>, y: seq<nat>)
    requires Marks(a, b, x) && Marks(b, c, y)
    ensures Marks(a, c, x + y)
  {
    var z := x + y;
    forall i, j | 0 <= i < j < |z| ensures z[i] != z[j] {
      if i < |x| <= j {
        assert x[i] in x && y[j - |x|] in y;
      }
    }
  }

  /** The witness meets the rule with a different identity at every leaf. */
  predicate MetByDistinct(w: Witness, rule: Rule, principals: seq<Principal>, s: Signers)
    requires Compiles(rule, principals)
  {
    Meets(w, rule, principals, s) && Distinct(Leaves(w))
  }

  /**
   When the evaluator accepts, there is a satisfying sub-tree whose leaves are met by pairwise
   different identities, all free before; those and no others, in particular none tried by a
   gate that failed, are the ones marked.
   */
  lemma {:induction false} EvalSound(rule: Rule, principals: seq<Principal>, s: Signers, used: Used) returns (w: Witness)
    requires |used| == |s.ids| && Compiles(rule, principals)
    requires Eval(rule, principals, s, used).ok
    ensures Meets(w, rule, principals, s)
    ensures Marks(used, Eval(rule, principals, s, used).used, Leaves(w))
    decreases rule, 1
  {
    match rule
    case SignedBy(k) =>
      w := Signer(FirstFit(principals[k], s, used, 0));
    case NOutOf(n, rules) =>
      var ws := EvalAllSound(rules, principals, s, used);
      w := Chosen(ws);
  }

  lemma {:induction false} EvalAllSound(rules: seq<Rule>, principals: seq<Principal>, s: Signers, used: Used)
    returns (ws: seq<Choice>)
    requires |used| == |s.ids| && AllCompile(rules, principals)
    ensures AllMeet(ws, rules, principals, s)
    ensures CountMet(ws) == EvalAll(rules, principals, s, used).count
    ensures Marks(used, EvalAll(rules, principals, s, used).used, AllLeaves(ws))
    decreases rules, 0
  {
    if rules == [] {
      ws := [];
    } else {
      var v := Eval(rules[0], principals, s, used);
      if v.ok {
        var w := EvalSound(rules[0], principals, s, used);
        var rest := EvalAllSound(rules[1..], principals, s, v.used);
        ws := [Met(w)] + rest;
        MarksConcat(used, v.used, EvalAll(rules, principals, s, used).used, Leaves(w), AllLeaves(rest));
      } else {
        var rest := EvalAllSound(rules[1..], principals, s, used);
        ws := [Skipped] + rest;
        assert [] + AllLeaves(rest) == AllLeaves(rest);
      }
    }
  }
}
