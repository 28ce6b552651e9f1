/**
 * Application-name resolution: turn a human-supplied fragment into the one bus
 * name that contains it. The two bus calls (`ListNames` and
 * `ListActivatableNames`) are replaced by the two sequences they return.
 */
module Resolver {
  import opened Strings
  import opened Errors

  /** No name is listed twice. */
  ghost predicate Distinct(s: seq<string>) {
    forall i, j :: 0 <= i < j < |s| ==> s[i] != s[j]
  }

  /** `ms` lists the set `names`, each member exactly once, in some order. */
  ghost predicate ListsExactly(ms: seq<string>, names: set<string>) {
    Distinct(ms) && forall x :: x in ms <==> x in names
  }

  /**
   * The bus names with duplicates removed (`dict(...).keys()`). The order of
   * the result is not part of the contract: the dictionary does not fix it.
   */
  function Uniquify(names: seq<string>): (u: seq<string>)
    ensures Distinct(u)
    ensures forall x :: x in u <==> x in names
  {
    if names == [] then []
    else
      var rest := Uniquify(names[..|names| - 1]);
      var last := names[|names| - 1];
      assert names == names[..|names| - 1] + [last];
      if last in rest then rest else rest + [last]
  }

  /** A bus name matches the request case-sensitively or, failing that, case-insensitively. */
  ghost predicate IsMatch(name: string, requested: string) {
    Contains(name, requested) || Contains(Lower(name), Lower(requested))
  }

  /** The candidates of `names` that match, in the order of `names`. */
  ghost function MatchesIn(names: seq<string>, requested: string): seq<string> {
    if names == [] then []
    else
      MatchesIn(names[..|names| - 1], requested)
      + (if IsMatch(names[|names| - 1], requested) then [names[|names| - 1]] else [])
  }

  /** Every name of the list that matches the request. */
  ghost function Matching(names: seq<string>, requested: string): set<string> {
    set n | n in names && IsMatch(n, requested)
  }

  /**
   * `get_matching_application`: the single bus name, owned or activatable,
   * that matches `requested`; `BadApplication` when none does and
   * `InspecificApplication`, listing every match, when several do.
   */
  method GetMatchingApplication(owned: seq<string>, activatable: seq<string>, requested: string)
    returns (r: Result<string>)
    ensures r.Ok? <==> |Matching(owned + activatable, requested)| == 1
    ensures r.Ok? ==> r.value in owned + activatable && Matching(owned + activatable, requested) == {r.value}
    ensures Matching(owned + activatable, requested) == {} <==> r == Err(Raise(BadApplication, [requested]))
    ensures |Matching(owned + activatable, requested)| >= 2 <==> r.Err? && r.error.kind == InspecificApplication
    ensures r.Err? && r.error.kind == InspecificApplication ==>
      exists ms :: ListsExactly(ms, Matching(owned + activatable, requested))
        && r.error == Raise(InspecificApplication, [requested, Join(", ", ms)])
  {
    var busnames := Uniquify(owned + activatable);
    var possibleApps: seq<string> := [];
    for i := 0 to |busnames|
      invariant possibleApps == MatchesIn(busnames[..i], requested)
    {
      var busname := busnames[i];
      assert busnames[..i + 1][..i] == busnames[..i];
      if Find(busname, requested) != -1 {
        possibleApps := possibleApps + [busname];
      } else if Find(Lower(busname), Lower(requested)) != -1 {
        possibleApps := possibleApps + [busname];
      }
    }
    assert busnames[..|busnames|] == busnames;
    ghost var matching := Matching(owned + activatable, requested);
    MatchesInLists(busnames, requested);
    assert ListsExactly(possibleApps, matching);
    ListedSize(possibleApps, matching);
    if |possibleApps| == 0 {
      r := Err(Raise(BadApplication, [requested]));
    } else if |possibleApps| > 1 {
      r := Err(Raise(InspecificApplication, [requested, Join(", ", possibleApps)]));
    } else {
      r := Ok(possibleApps[0]);
      assert matching == {r.value};
    }
  }

  /** The filtered candidates are exactly the matching ones, each once. */
  lemma {:induction false} MatchesInLists(names: seq<string>, requested: string)
    requires Distinct(names)
    ensures Distinct(MatchesIn(names, requested))
    ensures forall x :: x in MatchesIn(names, requested) <==> x in names && IsMatch(x, requested)
  {
    if names != [] {
      var init := names[..|names| - 1];
      assert names == init + [names[|names| - 1]];
      MatchesInLists(init, requested);
    }
  }

  /** A duplicate-free listing of a set is as long as the set is large. */
  lemma {:induction false} ListedSize(ms: seq<string>, names: set<string>)
    requires ListsExactly(ms, names)
    ensures |ms| == |names|
  {
    if ms != [] {
      var rest := names - {ms[0]};
      forall x | x in ms[1..] ensures x != ms[0] {
        var k :| 0 <= k < |ms[1..]| && ms[1..][k] == x;
        assert ms[k + 1] == x;
      }
      assert ListsExactly(ms[1..], rest);
      ListedSize(ms[1..], rest);
    } else {
      assert forall x :: x !in names;
    }
  }

  /**
   * The case-sensitive test only short-cuts the case-insensitive one: a name
   * matches exactly when its lower case contains the lower-cased request.
   */
  lemma MatchIsCaseInsensitive(name: string, requested: string)
    ensures IsMatch(name, requested) <==> Contains(Lower(name), Lower(requested))
  {
    CaseSensitiveImpliesInsensitive(name, requested);
  }

  /** A name offered both as owned and as activatable is one candidate. */
  lemma {:induction false} SharedNameCountedOnce(owned: seq<string>, activatable: seq<string>, name: string)
    requires name in owned && name in activatable
    ensures multiset(Uniquify(owned + activatable))[name] == 1
  {
    var u := Uniquify(owned + activatable);
    assert name in owned + activatable;
    var k :| 0 <= k < |u| && u[k] == name;
    assert u == u[..k] + [name] + u[k + 1..];
    assert name !in u[..k] && name !in u[k + 1..] by {
      forall j | 0 <= j < |u| && j != k ensures u[j] != name { }
    }
    assert multiset(u) == multiset(u[..k]) + multiset{name} + multiset(u[k + 1..]);
  }
}
