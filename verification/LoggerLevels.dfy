/**
 `common/flogging/loggerlevels.go`: the level of a named logger, looked up by longest dotted prefix
 in the active specification, memoised, and bounded from below by a minimum kept for a fast check.
 */
module LoggerLevels {
  import opened Wrappers

  /** The position of the last '.', or -1. */
  function LastDot(s: string): (i: int)
    ensures -1 <= i < |s|
    ensures i >= 0 ==> s[i] == '.'
    ensures forall j | i < j < |s| :: s[j] != '.'
  {
    if s == "" then -1
    else if s[|s| - 1] == '.' then |s| - 1
    else LastDot(s[..|s| - 1])
  }

  /** What a specification says: levels for loggers, and one for all others. */
  datatype Spec = Spec(levels: map<string, int>, default: int)

  /** `calculateLevel`, from a candidate on. */
  function LevelFrom(spec: Spec, candidate: string): int
    decreases |candidate|
  {
    if candidate in spec.levels then spec.levels[candidate]
    else
      var idx := LastDot(candidate);
      if idx <= 0 then spec.default else LevelFrom(spec, candidate[..idx])
  }

  function LevelOf(spec: Spec, name: string): int {
    LevelFrom(spec, name + ".")
  }

  // ---------------------------------------------------------------------------------------------
  // Longest prefix
  // ---------------------------------------------------------------------------------------------

  /** `key` is `candidate`, or a non-empty part of it that ends before a '.'. */
  predicate Governs(key: string, candidate: string) {
    key == candidate || (0 < |key| < |candidate| && candidate[..|key|] == key && candidate[|key|] == '.')
  }

  /** The level is that of the longest governing key of the specification, or the default if there is none. */
  ghost predicate LongestGoverns(spec: Spec, candidate: string, level: int) {
    || (level == spec.default && forall key | key in spec.levels :: !Governs(key, candidate))
    || exists key :: LongestKey(spec, candidate, key) && level == spec.levels[key]
  }

  ghost predicate LongestKey(spec: Spec, candidate: string, key: string) {
    && key in spec.levels && Governs(key, candidate)
    && forall other | other in spec.levels && Governs(other, candidate) :: |other| <= |key|
  }

  /** Past the candidate itself, the keys that govern it are those that govern what is left of its last '.'. */
  lemma GovernsCut(key: string, candidate: string)
    requires key != candidate
    ensures var idx := LastDot(candidate);
            Governs(key, candidate) <==> idx > 0 && Governs(key, candidate[..idx])
  {
    hide LastDot;
    var idx := LastDot(candidate);
    if Governs(key, candidate) {
      assert |key| <= idx;
      assert candidate[..idx][..|key|] == key;
    }
    if idx > 0 && Governs(key, candidate[..idx]) {
      assert candidate[..|key|] == candidate[..idx][..|key|];
    }
  }

  /** The keys that govern a logger: its name with a trailing '.', its name, and what its name continues after a '.'. */
  lemma GovernsName(key: string, name: string)
    ensures Governs(key, name + ".") <==> key == name + "." || (key != "" && (key == name || key + "." <= name))
  {
    var candidate := name + ".";
    if key == name && key != "" {
      assert candidate[..|key|] == key;
    }
    if key != "" && key + "." <= name {
      assert candidate[..|key|] == name[..|key|] == (key + ".")[..|key|] == key && name[|key|] == (key + ".")[|key|] == '.';
    }
    if Governs(key, candidate) && |key| < |name| {
      assert name[..|key|] == key && name[|key|] == '.';
      assert name[..|key| + 1] == key + ".";
    }
  }

  /** The walk back from the name finds the longest governing key. */
  lemma {:induction false} LevelFromExact(spec: Spec, candidate: string)
    ensures LongestGoverns(spec, candidate, LevelFrom(spec, candidate))
    decreases |candidate|
  {
    hide LastDot; hide Governs;
    if candidate in spec.levels {
      assert LongestKey(spec, candidate, candidate) by { GovernsSelf(candidate); }
    } else {
      var idx := LastDot(candidate);
      forall key | key in spec.levels ensures Governs(key, candidate) <==> idx > 0 && Governs(key, candidate[..idx]) {
        GovernsCut(key, candidate);
      }
      if idx > 0 {
        LevelFromExact(spec, candidate[..idx]);
        if key :| LongestKey(spec, candidate[..idx], key) && LevelFrom(spec, candidate[..idx]) == spec.levels[key] {
          assert LongestKey(spec, candidate, key);
        }
      }
    }
  }

  lemma GovernsSelf(candidate: string)
    ensures Governs(candidate, candidate)
    ensures forall key | Governs(key, candidate) :: |key| <= |candidate|
  {
  }

  /** A lower bound of all levels of a specification. */
  predicate IsMinimum(spec: Spec, min: int) {
    && min <= spec.default
    && (forall key | key in spec.levels :: min <= spec.levels[key])
    && (min == spec.default || exists key | key in spec.levels :: min == spec.levels[key])
  }

  lemma {:induction false} LevelAboveMinimum(spec: Spec, min: int, candidate: string)
    requires IsMinimum(spec, min)
    ensures min <= LevelFrom(spec, candidate)
    decreases |candidate|
  {
    hide LastDot;
    if candidate !in spec.levels && LastDot(candidate) > 0 {
      LevelAboveMinimum(spec, min, candidate[..LastDot(candidate)]);
    }
  }

  // ---------------------------------------------------------------------------------------------
  // The memo
  // ---------------------------------------------------------------------------------------------

  class LoggerLevels {
    var levelCache: map<string, int>
    var spec: Spec
    var minLevel: int

    /** Every cached level is the one the active specification gives, and the minimum is that of the specification. */
    ghost predicate Valid()
      reads this
    {
      && (forall name | name in levelCache :: levelCache[name] == LevelOf(spec, name))
      && IsMinimum(spec, minLevel)
    }

    constructor (default: int)
      ensures Valid() && spec == Spec(map[], default)
    {
      levelCache, spec, minLevel := map[], Spec(map[], default), default;
    }

    /** `ActivateSpec`, once the text has been parsed; `None` stands for a specification that is rejected. */
    method ActivateSpec(parsed: Option<Spec>) returns (ok: bool)
      requires Valid()
      modifies this
      ensures Valid() && ok == parsed.Some?
      ensures parsed.Some? ==> spec == parsed.value && levelCache == map[]
      ensures parsed.None? ==> spec == old(spec) && levelCache == old(levelCache) && minLevel == old(minLevel)
    {
      if parsed.None? {
        return false;
      }
      var min := MinimumOf(parsed.value);
      spec, minLevel, levelCache := parsed.value, min, map[];
      return true;
    }

    /** `Level` */
    method Level(name: string) returns (level: int)
      requires Valid()
      modifies this`levelCache
      ensures Valid() && level == LevelOf(spec, name)
      ensures LongestGoverns(spec, name + ".", level)
      ensures forall other | other in old(levelCache) :: other in levelCache
    {
      LevelFromExact(spec, name + ".");
      if name in levelCache {
        return levelCache[name];
      }
      level := CalculateLevel(spec, name);
      levelCache := levelCache[name := level];
    }

    /** `Enabled`: the fast check refuses no level that the level of some logger would let pass. */
    method Enabled(lvl: int) returns (enabled: bool)
      requires Valid()
      ensures forall name :: LevelOf(spec, name) <= lvl ==> enabled
      ensures enabled ==> spec.default <= lvl || exists key | key in spec.levels :: spec.levels[key] <= lvl
    {
      forall name | LevelOf(spec, name) <= lvl ensures minLevel <= lvl {
        LevelAboveMinimum(spec, minLevel, name + ".");
      }
      enabled := minLevel <= lvl;
    }
  }

  /** The loop of `ActivateSpec` that finds the lowest level. */
  method MinimumOf(spec: Spec) returns (min: int)
    ensures IsMinimum(spec, min)
  {
    min := spec.default;
    var todo := spec.levels.Keys;
    while todo != {}
      invariant todo <= spec.levels.Keys && min <= spec.default
      invariant forall key | key in spec.levels.Keys - todo :: min <= spec.levels[key]
      invariant min == spec.default || exists key | key in spec.levels :: min == spec.levels[key]
    {
      var key :| key in todo;
      if spec.levels[key] < min {
        min := spec.levels[key];
      }
      todo := todo - {key};
    }
  }

  /** The loop of `calculateLevel`. */
  method CalculateLevel(spec: Spec, name: string) returns (level: int)
    ensures level == LevelOf(spec, name)
  {
    var candidate := name + ".";
    while true
      invariant LevelFrom(spec, candidate) == LevelOf(spec, name)
      decreases |candidate|
    {
      if candidate in spec.levels {
        return spec.levels[candidate];
      }
      var idx := LastDot(candidate);
      if idx <= 0 {
        return spec.default;
      }
      candidate := candidate[..idx];
    }
  }
}
