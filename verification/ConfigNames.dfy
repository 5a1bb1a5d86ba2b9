/**
 Names: which strings `validateConfigID`, `ValidateChannelID` and `validateModPolicy` of
 `common/configtx` accept.
 */
module ConfigNames {
  import opened Wrappers
  import opened ConfigTree
  import opened ConfigUpdate

  // ---------------------------------------------------------------------------------------------
  // Regular expressions
  // ---------------------------------------------------------------------------------------------

  /**
   `FindString` for an expression that is one character of a class followed by any number of another:
   the length of the leftmost match, as long as it can be. It is the whole string only if the string
   itself is of that form.
   */
  method FindRun(s: string, first: char -> bool, next: char -> bool) returns (n: nat)
    ensures n <= |s|
    ensures s != "" ==> (n == |s| <==> first(s[0]) && forall i | 1 <= i < |s| :: next(s[i]))
  {
    var start := 0;
    while start < |s| && !first(s[start])
      invariant 0 <= start <= |s| && forall i | 0 <= i < start :: !first(s[i])
    {
      start := start + 1;
    }
    if start == |s| {
      return 0;
    }
    var end := start + 1;
    while end < |s| && next(s[end])
      invariant start < end <= |s| && forall i | start < i < end :: next(s[i])
    {
      end := end + 1;
    }
    return end - start;
  }

  /** `validateConfigID` */
  method ValidateConfigID(id: string) returns (ok: bool)
    ensures ok == ValidId(id)
    ensures ok <==>
            && 1 <= |id| < 250 && id != "." && id != ".."
            && forall i | 0 <= i < |id| ::
                 'a' <= id[i] <= 'z' || 'A' <= id[i] <= 'Z' || '0' <= id[i] <= '9' || id[i] == '.' || id[i] == '-'
  {
    if |id| <= 0 {
      return false;
    }
    if |id| > MAX_LENGTH {
      return false;
    }
    if id == "." || id == ".." {
      return false;
    }
    var allowed := (c: char) => 'a' <= c <= 'z' || 'A' <= c <= 'Z' || '0' <= c <= '9' || c == '.' || c == '-';
    var matched := FindRun(id, allowed, allowed);
    ok := matched == |id|;
    assert (forall i | 0 <= i < |id| :: id[i] == '.') && |id| <= 2 ==> id == "." || id == "..";
  }

  /** `ValidateChannelID` */
  method ValidateChannelID(id: string) returns (ok: bool)
    ensures ok == ValidChannelID(id)
    ensures ok <==>
            && 1 <= |id| < 250 && 'a' <= id[0] <= 'z'
            && forall i | 1 <= i < |id| :: 'a' <= id[i] <= 'z' || '0' <= id[i] <= '9' || id[i] == '.' || id[i] == '-'
  {
    if |id| <= 0 {
      return false;
    }
    if |id| > MAX_LENGTH {
      return false;
    }
    var matched := FindRun(id, (c: char) => 'a' <= c <= 'z',
                           (c: char) => 'a' <= c <= 'z' || '0' <= c <= '9' || c == '.' || c == '-');
    ok := matched == |id|;
  }

  // ---------------------------------------------------------------------------------------------
  // Policy names
  // ---------------------------------------------------------------------------------------------

  lemma {:induction false} SplitPlain(s: string)
    requires '/' !in s
    ensures SplitPath(s) == [s]
  {
    if s != [] {
      SplitPlain(s[1..]);
      assert [s[0]] + s[1..] == s;
    }
  }

  lemma {:induction false} SplitFirst(a: string, s: string)
    requires '/' !in a
    ensures SplitPath(a + "/" + s) == [a] + SplitPath(s)
    decreases |a|
  {
    var t := a + "/" + s;
    if a == "" {
      assert t[1..] == s;
    } else {
      assert t[1..] == a[1..] + "/" + s;
      SplitFirst(a[1..], s);
      assert [a[0]] + a[1..] == a;
    }
  }

  /** The names with a separator between any two. */
  function Joined(names: seq<string>): string
    requires names != []
  {
    if |names| == 1 then names[0] else names[0] + "/" + Joined(names[1..])
  }

  lemma {:induction false} SplitJoined(names: seq<string>)
    requires names != [] && forall i | 0 <= i < |names| :: '/' !in names[i]
    ensures SplitPath(Joined(names)) == names
    decreases |names|
  {
    if |names| == 1 {
      SplitPlain(names[0]);
    } else {
      SplitJoined(names[1..]);
      SplitFirst(names[0], Joined(names[1..]));
    }
  }

  lemma {:induction false} JoinedSplit(s: string)
    ensures SplitPath(s) != [] && Joined(SplitPath(s)) == s
  {
    if s != [] {
      JoinedSplit(s[1..]);
      var rest, all := SplitPath(s[1..]), SplitPath(s);
      if s[0] == '/' {
        assert all[1..] == rest && [] + "/" + s[1..] == s;
      } else {
        assert all[1..] == rest[1..] && all[0] == [s[0]] + rest[0];
        assert [s[0]] + s[1..] == s;
        if |rest| > 1 {
          assert [s[0]] + (rest[0] + "/" + Joined(rest[1..])) == ([s[0]] + rest[0]) + "/" + Joined(rest[1..]);
        }
      }
    }
  }

  lemma PlainId(id: string)
    requires ValidId(id)
    ensures id != "" && '/' !in id
  {
  }

  /** The mod_policy is the names joined, with or without a leading separator. */
  predicate Spells(modPolicy: string, names: seq<string>) {
    names != [] && (modPolicy == Joined(names) || modPolicy == "/" + Joined(names))
  }

  /** A mod_policy is valid exactly when it spells valid names. */
  lemma ModPolicyExact(modPolicy: string)
    ensures ValidModPolicy(modPolicy) <==> exists names :: ValidPath(names) && Spells(modPolicy, names)
  {
    hide ValidId; hide SplitPath; hide Joined;
    if ValidModPolicy(modPolicy) {
      var trimmed := if modPolicy[0] == '/' then modPolicy[1..] else modPolicy;
      JoinedSplit(trimmed);
      assert modPolicy[0] == '/' ==> modPolicy == "/" + trimmed;
      assert Spells(modPolicy, SplitPath(trimmed));
    }
    if names :| ValidPath(names) && Spells(modPolicy, names) {
      forall i | 0 <= i < |names| ensures '/' !in names[i] {
        PlainId(names[i]);
      }
      PlainId(names[0]);
      SplitJoined(names);
      JoinedStart(names);
      assert ("/" + Joined(names))[1..] == Joined(names);
    }
  }

  lemma JoinedStart(names: seq<string>)
    requires names != [] && names[0] != "" && '/' !in names[0]
    ensures Joined(names) != "" && Joined(names)[0] != '/'
  {
    assert Joined(names)[0] == names[0][0];
  }

  // ---------------------------------------------------------------------------------------------
  // Keys
  // ---------------------------------------------------------------------------------------------

  lemma {:induction false} JoinedLast(names: seq<string>, k: string)
    requires names != []
    ensures Joined(names + [k]) == Joined(names) + "/" + k
    decreases |names|
  {
    var all := names + [k];
    if |names| == 1 {
      assert all[1..] == [k];
    } else {
      assert all[1..] == names[1..] + [k];
      JoinedLast(names[1..], k);
      assert names[0] + "/" + (Joined(names[1..]) + "/" + k) == names[0] + "/" + Joined(names[1..]) + "/" + k;
    }
  }

  lemma {:induction false} PathSpelled(path: seq<string>)
    requires path != []
    ensures PathString(path) == "/" + Joined(path)
    decreases |path|
  {
    hide Child;
    var front, k := path[..|path| - 1], path[|path| - 1];
    assert path == front + [k];
    PathStringSnoc(front, k);
    ChildSpelled(PathString(front), k);
    if front == [] {
      assert path == [k] && "" + "/" + k == "/" + k;
    } else {
      PathSpelled(front);
      JoinedLast(front, k);
      assert "/" + Joined(front) + "/" + k == "/" + (Joined(front) + "/" + k);
    }
  }

  lemma ChildSpelled(path: string, k: string)
    ensures Child(path, k) == path + "/" + k
  {
  }

  /** The key that `addToMap` writes for an element. */
  lemma KeySpelled(kind: Kind, path: seq<string>)
    requires path != []
    ensures kind == GroupKind ==> Key(kind, path) == "[Group]  " + "/" + Joined(path)
    ensures kind == ValueKind ==> Key(kind, path) == "[Value]  " + "/" + Joined(path)
    ensures kind == PolicyKind ==> Key(kind, path) == "[Policy] " + "/" + Joined(path)
  {
    hide PathString; hide Joined;
    PathSpelled(path);
  }
}
