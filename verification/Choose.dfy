/** `common/graph/choose.go`: all ways of choosing k numbers below n. */
module Choose {

  /** The binomial coefficient, by Pascal's rule. */
  function Binomial(n: nat, k: nat): nat {
    if k == 0 then 1 else if n == 0 then 0 else Binomial(n - 1, k - 1) + Binomial(n - 1, k)
  }

  lemma {:induction false} BinomialAbove(n: nat, k: nat)
    requires n < k
    ensures Binomial(n, k) == 0
    decreases n
  {
    if n > 0 {
      BinomialAbove(n - 1, k - 1);
      BinomialAbove(n - 1, k);
    }
  }

  lemma {:induction false} BinomialAll(n: nat)
    ensures Binomial(n, n) == 1
  {
    if n > 0 {
      BinomialAll(n - 1);
      BinomialAbove(n - 1, n);
    }
  }

  lemma {:induction false} BinomialGrows(n: nat, k: nat, m: nat)
    requires n <= m
    ensures Binomial(n, k) <= Binomial(m, k)
    decreases m
  {
    if n < m {
      BinomialGrows(n, k, m - 1);
    }
  }

  /** `CombinationsExceed` */
  predicate CombinationsExceed(n: nat, k: nat, threshold: int) {
    n >= k && Binomial(n, k) > threshold
  }

  // ---------------------------------------------------------------------------------------------
  // The enumeration
  // ---------------------------------------------------------------------------------------------

  /** What `choose` adds to the accumulator when it stands at number `i` having picked `picked`. */
  function Combinations(n: nat, k: nat, i: nat, picked: seq<nat>): seq<seq<nat>>
    requires |picked| <= k && i <= n
    decreases n - i
  {
    if |picked| == k then [picked]
    else if k - |picked| > n - i then []
    else Combinations(n, k, i + 1, picked + [i]) + Combinations(n, k, i + 1, picked)
  }

  /** `chooseKoutOfN` */
  function ChooseKoutOfN(n: nat, k: nat): seq<seq<nat>> {
    Combinations(n, k, 0, [])
  }

  /** The accumulator of `choose`. */
  class OrderedSet {
    var elements: seq<seq<nat>>

    constructor ()
      ensures elements == []
    {
      elements := [];
    }

    method Add(o: seq<nat>)
      modifies this
      ensures elements == old(elements) + [o]
    {
      elements := elements + [o];
    }
  }

  /** `choose` */
  method ChooseInto(n: nat, k: nat, i: nat, picked: seq<nat>, subGroups: OrderedSet)
    requires |picked| <= k && i <= n
    modifies subGroups
    ensures subGroups.elements == old(subGroups.elements) + Combinations(n, k, i, picked)
    decreases n - i
  {
    CombinationsUnfold(n, k, i, picked);
    hide Combinations;
    if |picked| == k {
      subGroups.Add(picked);
      return;
    }
    if k - |picked| > n - i {
      return;
    }
    ghost var start := subGroups.elements;
    ghost var taken, left := Combinations(n, k, i + 1, picked + [i]), Combinations(n, k, i + 1, picked);
    ChooseInto(n, k, i + 1, picked + [i], subGroups);
    ChooseInto(n, k, i + 1, picked, subGroups);
    assert start + taken + left == start + (taken + left);
  }

  lemma CombinationsUnfold(n: nat, k: nat, i: nat, picked: seq<nat>)
    requires |picked| <= k && i <= n
    ensures Combinations(n, k, i, picked) ==
            if |picked| == k then [picked]
            else if k - |picked| > n - i then []
            else Combinations(n, k, i + 1, picked + [i]) + Combinations(n, k, i + 1, picked)
  {
  }

  // ---------------------------------------------------------------------------------------------
  // What it enumerates
  // ---------------------------------------------------------------------------------------------

  /** The numbers increase strictly, start no lower than `lo` and stay below `n`. */
  predicate Increasing(s: seq<nat>, lo: nat, n: nat) {
    && (forall a, b | 0 <= a < b < |s| :: s[a] < s[b])
    && (forall a | 0 <= a < |s| :: lo <= s[a] < n)
  }

  /** A complete choice that continues `picked` with numbers from `i` on. */
  predicate Completes(s: seq<nat>, n: nat, k: nat, i: nat, picked: seq<nat>) {
    |s| == k && picked <= s && Increasing(s[|picked|..], i, n)
  }

  lemma {:induction false} IncreasingLength(s: seq<nat>, lo: nat, n: nat)
    requires Increasing(s, lo, n) && lo <= n
    ensures |s| <= n - lo
    decreases |s|
  {
    if s != [] {
      IncreasingLength(s[1..], s[0] + 1, n);
    }
  }

  /** A sequence that increases from `i` on starts with `i` or increases from `i + 1` on. */
  lemma IncreasingSplit(s: seq<nat>, i: nat, n: nat)
    requires s != [] && i < n
    ensures Increasing(s, i, n) <==> Increasing(s, i + 1, n) || (s[0] == i && Increasing(s[1..], i + 1, n))
  {
    if s[0] == i && Increasing(s[1..], i + 1, n) {
      forall a, b | 0 <= a < b < |s| ensures s[a] < s[b] {
        assert s[b] == s[1..][b - 1] && (a > 0 ==> s[a] == s[1..][a - 1]);
      }
      forall a | 0 <= a < |s| ensures i <= s[a] < n {
        assert a > 0 ==> s[a] == s[1..][a - 1];
      }
    }
  }

  lemma CompletesSplit(s: seq<nat>, n: nat, k: nat, i: nat, picked: seq<nat>)
    requires |picked| < k && i < n
    ensures Completes(s, n, k, i, picked) <==>
            Completes(s, n, k, i + 1, picked + [i]) || Completes(s, n, k, i + 1, picked)
  {
    var p := |picked|;
    if |s| == k {
      hide Increasing;
      IncreasingSplit(s[p..], i, n);
      assert s[p..][1..] == s[p + 1..] && s[p..][0] == s[p];
      assert picked + [i] <= s <==> picked <= s && s[p] == i;
    }
  }

  /** The enumeration holds exactly the complete choices. */
  lemma {:induction false} CombinationsExact(n: nat, k: nat, i: nat, picked: seq<nat>, s: seq<nat>)
    requires |picked| <= k && i <= n
    ensures s in Combinations(n, k, i, picked) <==> Completes(s, n, k, i, picked)
    decreases n - i
  {
    if |picked| == k {
      if Completes(s, n, k, i, picked) {
        assert s == picked;
      }
    } else if k - |picked| > n - i {
      if Completes(s, n, k, i, picked) {
        IncreasingLength(s[|picked|..], i, n);
      }
    } else {
      CombinationsExact(n, k, i + 1, picked + [i], s);
      CombinationsExact(n, k, i + 1, picked, s);
      CompletesSplit(s, n, k, i, picked);
    }
  }

  /** `s` and `t` first differ at `p`, where `s` is smaller. */
  predicate LexLessAt(s: seq<nat>, t: seq<nat>, p: nat) {
    p < |s| && p < |t| && s[..p] == t[..p] && s[p] < t[p]
  }

  ghost predicate LexLess(s: seq<nat>, t: seq<nat>) {
    exists p: nat :: LexLessAt(s, t, p)
  }

  ghost predicate LexSorted(ss: seq<seq<nat>>) {
    forall a, b | 0 <= a < b < |ss| :: LexLess(ss[a], ss[b])
  }

  /** The choices come in strict lexicographic order, so none comes twice. */
  lemma {:induction false} CombinationsSorted(n: nat, k: nat, i: nat, picked: seq<nat>)
    requires |picked| <= k && i <= n
    ensures LexSorted(Combinations(n, k, i, picked))
    decreases n - i
  {
    if |picked| < k && k - |picked| <= n - i {
      var taken, left := Combinations(n, k, i + 1, picked + [i]), Combinations(n, k, i + 1, picked);
      CombinationsSorted(n, k, i + 1, picked + [i]);
      CombinationsSorted(n, k, i + 1, picked);
      forall a, b | 0 <= a < |taken| && 0 <= b < |left| ensures LexLess(taken[a], left[b]) {
        var s, t := taken[a], left[b];
        CombinationsExact(n, k, i + 1, picked + [i], s);
        CombinationsExact(n, k, i + 1, picked, t);
        assert t[|picked|] == t[|picked|..][0];
        assert s[..|picked|] == picked && s[|picked|] == i;
        assert LexLessAt(s, t, |picked|);
      }
    }
  }

  /** There are as many choices as the binomial coefficient says. */
  lemma {:induction false} CombinationsCount(n: nat, k: nat, i: nat, picked: seq<nat>)
    requires |picked| <= k && i <= n
    ensures |Combinations(n, k, i, picked)| == Binomial(n - i, k - |picked|)
    decreases n - i
  {
    if |picked| < k {
      if k - |picked| > n - i {
        BinomialAbove(n - i, k - |picked|);
      } else {
        CombinationsCount(n, k, i + 1, picked + [i]);
        CombinationsCount(n, k, i + 1, picked);
      }
    }
  }

  /** Every strictly increasing k-sequence below n, exactly once, in lexicographic order, Binomial(n, k) in all. */
  lemma ChooseExact(n: nat, k: nat)
    ensures forall s :: s in ChooseKoutOfN(n, k) <==> |s| == k && Increasing(s, 0, n)
    ensures LexSorted(ChooseKoutOfN(n, k))
    ensures |ChooseKoutOfN(n, k)| == Binomial(n, k)
  {
    hide Combinations;
    forall s ensures s in ChooseKoutOfN(n, k) <==> |s| == k && Increasing(s, 0, n) {
      CombinationsExact(n, k, 0, [], s);
      assert s[0..] == s;
    }
    CombinationsSorted(n, k, 0, []);
    CombinationsCount(n, k, 0, []);
  }

  /** `CombinationsExceed` tells whether there are more choices than the given number. */
  lemma ExceedExactly(n: nat, k: nat, threshold: nat)
    ensures CombinationsExceed(n, k, threshold) <==> |ChooseKoutOfN(n, k)| > threshold
  {
    hide ChooseKoutOfN; hide Binomial;
    ChooseExact(n, k);
    if n < k {
      BinomialAbove(n, k);
    }
  }

  lemma LexSortedDistinct(ss: seq<seq<nat>>, a: nat, b: nat)
    requires LexSorted(ss) && a < b < |ss|
    ensures ss[a] != ss[b]
  {
    var p: nat :| LexLessAt(ss[a], ss[b], p);
  }
}
