/** The `hasRoles` replace-variable: does a user hold any, or all, of the named roles.
    The two awaited lookups are parameters: `getUserByName` (the Twitch user lookup,
    `None` for a user it does not find) and `getAllRolesForViewer` (the roles, Twitch and
    custom, the user holds, as `{id, name}`). */
module HasRoles {
  import opened RoleTypes
  import opened Text

  /** `userRoles.filter(r => roles.includes(r.name))`: every held role whose name is
      requested, as often as it is held, and nothing else. */
  function MatchingRoles(userRoles: seq<RoleRef>, roles: seq<string>): (m: seq<RoleRef>)
    ensures |m| <= |userRoles|
    ensures forall r :: r in m <==> r in userRoles && r.name in roles
    ensures forall r {:trigger multiset(m)[r]} :: multiset(m)[r] == if r.name in roles then multiset(userRoles)[r] else 0
  {
    if userRoles == [] then []
    else
      var rest := MatchingRoles(userRoles[1..], roles);
      assert userRoles == [userRoles[0]] + userRoles[1..];
      if userRoles[0].name in roles then [userRoles[0]] + rest else rest
  }

  /** The guard clauses: a user name, a mode and at least one role must be given. */
  predicate ArgumentsGiven(username: string, respective: string, roles: seq<string>)
  {
    username != "" && respective != "" && |roles| > 0
  }

  /** The mode after lower-casing is "any" or "all". */
  predicate KnownMode(respective: string)
  {
    Lower(respective) == "any" || Lower(respective) == "all"
  }

  /** `evaluator(trigger, username, respective, ...roles)` */
  function Evaluator(username: string, respective: string, roles: seq<string>,
                     getUserByName: string -> Option<TwitchUser>,
                     getAllRolesForViewer: string -> seq<RoleRef>): (b: bool)
    ensures !ArgumentsGiven(username, respective, roles) ==> !b
    ensures !KnownMode(respective) ==> !b
    ensures getUserByName(username).None? ==> !b
    ensures b ==> getUserByName(username).Some?
    ensures ArgumentsGiven(username, respective, roles) && Lower(respective) == "any" && getUserByName(username).Some? ==>
      var held := getAllRolesForViewer(getUserByName(username).value.id);
      (b <==> exists r :: r in held && r.name in roles)
    ensures ArgumentsGiven(username, respective, roles) && Lower(respective) == "all" && getUserByName(username).Some? ==>
      var held := getAllRolesForViewer(getUserByName(username).value.id);
      (b <==> |roles| == |MatchingRoles(held, roles)|)
  {
    if username == "" then false
    else if respective == "" then false
    else if |roles| == 0 then false
    else
      var mode := Lower(respective);
      if mode != "any" && mode != "all" then false
      else match getUserByName(username)
        case None => false
        case Some(user) =>
          var userRoles := getAllRolesForViewer(user.id);
          if mode == "any" then exists r | r in userRoles :: r.name in roles
          else |roles| == |MatchingRoles(userRoles, roles)|
  }

  /** Only the lower-cased mode matters: "ANY" and "any", "All" and "all" agree. */
  lemma ModeIgnoresCase(username: string, mode: string, mode': string, roles: seq<string>,
                        getUserByName: string -> Option<TwitchUser>, getAllRolesForViewer: string -> seq<RoleRef>)
    requires Lower(mode) == Lower(mode')
    ensures Evaluator(username, mode, roles, getUserByName, getAllRolesForViewer) ==
            Evaluator(username, mode', roles, getUserByName, getAllRolesForViewer)
  {
    assert |mode| == |Lower(mode)| == |mode'|;
  }

  lemma UpperCaseModesAccepted()
    ensures Lower("ANY") == "any" && Lower("All") == "all" && Lower("ALL") == "all"
  {
  }

  // ----- the count-based "all" rule -----

  ghost predicate DistinctNames(userRoles: seq<RoleRef>)
  {
    forall i, j :: 0 <= i < j < |userRoles| ==> userRoles[i].name != userRoles[j].name
  }

  ghost predicate DistinctStrings(names: seq<string>)
  {
    forall i, j :: 0 <= i < j < |names| ==> names[i] != names[j]
  }

  /** The names of the held roles. */
  ghost function NameSet(userRoles: seq<RoleRef>): set<string>
  {
    if userRoles == [] then {} else {userRoles[0].name} + NameSet(userRoles[1..])
  }

  /** The requested names as a set. */
  ghost function StringSet(names: seq<string>): set<string>
  {
    if names == [] then {} else {names[0]} + StringSet(names[1..])
  }

  lemma {:induction false} InNameSet(userRoles: seq<RoleRef>, n: string)
    ensures n in NameSet(userRoles) <==> exists r :: r in userRoles && r.name == n
  {
    if userRoles != [] {
      InNameSet(userRoles[1..], n);
      assert forall r :: r in userRoles <==> r == userRoles[0] || r in userRoles[1..];
    }
  }

  lemma {:induction false} InStringSet(names: seq<string>, n: string)
    ensures n in StringSet(names) <==> n in names
  {
    if names != [] {
      InStringSet(names[1..], n);
      assert n in names <==> n == names[0] || n in names[1..];
    }
  }

  lemma {:induction false} DistinctStringsCard(names: seq<string>)
    requires DistinctStrings(names)
    ensures |StringSet(names)| == |names|
  {
    if names != [] {
      var rest := names[1..];
      assert DistinctStrings(rest) by {
        forall i, j | 0 <= i < j < |rest| ensures rest[i] != rest[j] {
          assert rest[i] == names[i + 1] && rest[j] == names[j + 1];
        }
      }
      DistinctStringsCard(rest);
      InStringSet(rest, names[0]);
      assert names[0] !in rest by {
        forall k | 0 <= k < |rest| ensures rest[k] != names[0] { assert rest[k] == names[k + 1]; }
      }
    }
  }

  lemma DistinctNamesTail(userRoles: seq<RoleRef>)
    requires DistinctNames(userRoles) && userRoles != []
    ensures DistinctNames(userRoles[1..])
    ensures userRoles[0].name !in NameSet(userRoles[1..])
  {
    var rest := userRoles[1..];
    assert forall k :: 0 <= k < |rest| ==> rest[k] == userRoles[k + 1];
    InNameSet(rest, userRoles[0].name);
  }

  lemma {:induction false} MatchingRolesCard(userRoles: seq<RoleRef>, roles: seq<string>, R: set<string>)
    requires DistinctNames(userRoles)
    requires forall n :: n in R <==> n in roles
    ensures |MatchingRoles(userRoles, roles)| == |NameSet(userRoles) * R|
  {
    if userRoles != [] {
      var h, rest := userRoles[0], userRoles[1..];
      DistinctNamesTail(userRoles);
      MatchingRolesCard(rest, roles, R);
      var A := NameSet(rest) * R;
      assert MatchingRoles(userRoles, roles) == (if h.name in roles then [h] else []) + MatchingRoles(rest, roles);
      if h.name in roles {
        assert NameSet(userRoles) * R == A + {h.name};
        assert h.name !in A;
      } else {
        assert NameSet(userRoles) * R == A;
      }
    }
  }

  lemma {:induction false} SubsetOfEqualSize(a: set<string>, b: set<string>)
    requires a <= b && |a| == |b|
    ensures a == b
  {
    if a != b {
      assert !(b <= a);
      var x :| x in b && x !in a;
      assert a <= b - {x};
      assert |b - {x}| == |b| - 1;
      SubsetCardBound(a, b - {x});
    }
  }

  lemma {:induction false} SubsetCardBound(a: set<string>, b: set<string>)
    requires a <= b
    ensures |a| <= |b|
    decreases |b|
  {
    if a != {} {
      var x :| x in a;
      SubsetCardBound(a - {x}, b - {x});
    }
  }

  /** With distinct requested names and distinct held names, the count comparison means
      "every requested name is held". */
  lemma {:induction false} AllCountMeansEveryName(userRoles: seq<RoleRef>, roles: seq<string>)
    requires DistinctNames(userRoles) && DistinctStrings(roles)
    ensures |roles| == |MatchingRoles(userRoles, roles)| <==>
            forall n :: n in roles ==> exists r :: r in userRoles && r.name == n
  {
    var R := StringSet(roles);
    var N := NameSet(userRoles);
    forall n ensures n in R <==> n in roles { InStringSet(roles, n); }
    forall n ensures n in N <==> exists r :: r in userRoles && r.name == n { InNameSet(userRoles, n); }
    DistinctStringsCard(roles);
    MatchingRolesCard(userRoles, roles, R);
    if |roles| == |MatchingRoles(userRoles, roles)| {
      SubsetOfEqualSize(N * R, R);
      forall n | n in roles ensures exists r :: r in userRoles && r.name == n {
        assert n in R;
        assert n in N;
      }
    }
    if forall n :: n in roles ==> exists r :: r in userRoles && r.name == n {
      assert N * R == R;
    }
  }

  /** The documented example `hasRoles[$user, any, mod, vip]`: true iff the user is a mod or a VIP. */
  lemma AnyModVipExample(username: string, getUserByName: string -> Option<TwitchUser>,
                         getAllRolesForViewer: string -> seq<RoleRef>)
    requires username != "" && getUserByName(username).Some?
    ensures var held := getAllRolesForViewer(getUserByName(username).value.id);
      Evaluator(username, "any", ["mod", "vip"], getUserByName, getAllRolesForViewer) <==>
      (exists r :: r in held && r.name == "mod") || (exists r :: r in held && r.name == "vip")
  {
    assert Lower("any") == "any";
  }

  /** The documented example `hasRoles[$user, all, mod, vip]`: when no role name is held
      twice, true iff the user is a mod and a VIP. */
  lemma AllModVipExample(username: string, getUserByName: string -> Option<TwitchUser>,
                         getAllRolesForViewer: string -> seq<RoleRef>)
    requires username != "" && getUserByName(username).Some?
    requires DistinctNames(getAllRolesForViewer(getUserByName(username).value.id))
    ensures var held := getAllRolesForViewer(getUserByName(username).value.id);
      Evaluator(username, "all", ["mod", "vip"], getUserByName, getAllRolesForViewer) <==>
      (exists r :: r in held && r.name == "mod") && (exists r :: r in held && r.name == "vip")
  {
    assert Lower("all") == "all";
    var held := getAllRolesForViewer(getUserByName(username).value.id);
    assert DistinctStrings(["mod", "vip"]);
    AllCountMeansEveryName(held, ["mod", "vip"]);
    assert "mod" in ["mod", "vip"] && "vip" in ["mod", "vip"];
    assert forall n :: n in ["mod", "vip"] ==> n == "mod" || n == "vip";
  }

  // ----- the intended "all" rule -----

  /** The evaluator with "all" read as documented ("the user is a mod AND a VIP"):
      every requested name is among the held role names. */
  function EvaluatorIntended(username: string, respective: string, roles: seq<string>,
                             getUserByName: string -> Option<TwitchUser>,
                             getAllRolesForViewer: string -> seq<RoleRef>): (b: bool)
    ensures !ArgumentsGiven(username, respective, roles) || !KnownMode(respective) || getUserByName(username).None? ==>
      b == false
    ensures Lower(respective) == "any" ==>
      b == Evaluator(username, respective, roles, getUserByName, getAllRolesForViewer)
  {
    if username == "" || respective == "" || |roles| == 0 then false
    else
      var mode := Lower(respective);
      if mode != "any" && mode != "all" then false
      else match getUserByName(username)
        case None => false
        case Some(user) =>
          var userRoles := getAllRolesForViewer(user.id);
          if mode == "any" then exists r | r in userRoles :: r.name in roles
          else forall n | n in roles :: exists r | r in userRoles :: r.name == n
  }

  /** Under the intended rule, holding more roles never turns "all" from true to false. */
  lemma IntendedAllIsMonotone(username: string, roles: seq<string>, getUserByName: string -> Option<TwitchUser>,
                              fewer: string -> seq<RoleRef>, more: string -> seq<RoleRef>)
    requires getUserByName(username).Some?
    requires var id := getUserByName(username).value.id; forall r :: r in fewer(id) ==> r in more(id)
    requires EvaluatorIntended(username, "all", roles, getUserByName, fewer)
    ensures EvaluatorIntended(username, "all", roles, getUserByName, more)
  {
    assert Lower("all") == "all";
    var id := getUserByName(username).value.id;
    forall n | n in roles ensures exists r :: r in more(id) && r.name == n {
      var r :| r in fewer(id) && r.name == n;
      assert r in more(id);
    }
  }

  /** Where no name is repeated, the as-written count rule and the intended rule agree. */
  lemma {:induction false} IntendedAgreesWhenNamesDistinct(username: string, respective: string, roles: seq<string>,
                                                            getUserByName: string -> Option<TwitchUser>,
                                                            getAllRolesForViewer: string -> seq<RoleRef>)
    requires DistinctStrings(roles)
    requires getUserByName(username).Some? ==> DistinctNames(getAllRolesForViewer(getUserByName(username).value.id))
    ensures EvaluatorIntended(username, respective, roles, getUserByName, getAllRolesForViewer) ==
            Evaluator(username, respective, roles, getUserByName, getAllRolesForViewer)
  {
    if getUserByName(username).Some? {
      AllCountMeansEveryName(getAllRolesForViewer(getUserByName(username).value.id), roles);
    }
  }

  // ----- where the count rule departs from "every requested name is held" -----

  function Alice(name: string): Option<TwitchUser>
  {
    if name == "alice" then Some(TwitchUser("u1", "alice", "Alice")) else None
  }

  /** Requesting "mod" twice while holding it once: the count rule answers false. */
  lemma DuplicateRequestedNameDefeatsAll()
    ensures !Evaluator("alice", "all", ["mod", "mod"], Alice, (id: string) => [RoleRef("m", "mod")])
    ensures EvaluatorIntended("alice", "all", ["mod", "mod"], Alice, (id: string) => [RoleRef("m", "mod")])
  {
    var held := [RoleRef("m", "mod")];
    assert Lower("all") == "all";
    assert MatchingRoles(held, ["mod", "mod"]) == held;
  }

  /** Holding two roles both named "VIP" (say a custom role with the same name as another):
      `hasRoles[alice, all, VIP]` answers false, although one VIP role alone answers true. */
  lemma DuplicateHeldNameDefeatsAll()
    ensures Evaluator("alice", "all", ["VIP"], Alice, (id: string) => [RoleRef("a", "VIP")])
    ensures !Evaluator("alice", "all", ["VIP"], Alice, (id: string) => [RoleRef("a", "VIP"), RoleRef("b", "VIP")])
    ensures EvaluatorIntended("alice", "all", ["VIP"], Alice, (id: string) => [RoleRef("a", "VIP"), RoleRef("b", "VIP")])
  {
    assert Lower("all") == "all";
    var one := [RoleRef("a", "VIP")];
    var two := [RoleRef("a", "VIP"), RoleRef("b", "VIP")];
    assert MatchingRoles(one, ["VIP"]) == one;
    assert MatchingRoles(two[1..], ["VIP"]) == two[1..];
    assert MatchingRoles(two, ["VIP"]) == two;
    assert RoleRef("a", "VIP") in two;
  }

  /** Holding two roles named "mod" and none named "vip": `hasRoles[alice, all, mod, vip]`
      answers true, because two held roles match two requested names. */
  lemma DuplicateHeldNameGrantsAll()
    ensures Evaluator("alice", "all", ["mod", "vip"], Alice, (id: string) => [RoleRef("a", "mod"), RoleRef("b", "mod")])
    ensures !EvaluatorIntended("alice", "all", ["mod", "vip"], Alice, (id: string) => [RoleRef("a", "mod"), RoleRef("b", "mod")])
  {
    assert Lower("all") == "all";
    var held := [RoleRef("a", "mod"), RoleRef("b", "mod")];
    assert MatchingRoles(held[1..], ["mod", "vip"]) == held[1..];
    assert MatchingRoles(held, ["mod", "vip"]) == held;
    assert "vip" in ["mod", "vip"];
    assert forall r :: r in held ==> r.name == "mod";
  }
}
