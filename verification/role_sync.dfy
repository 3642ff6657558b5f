/** Keeping cached viewer identities in step with Twitch: the identity refresh of
    each role and the one-time migration of legacy (username-list) roles. */
module RoleSync {
  import opened RoleTypes
  import opened CustomRoles

  // ----- identity refresh -----

  /** One returned user overwrites the first viewer with its id by a fresh snapshot.
      A user whose id matches no viewer changes no element (the source then writes
      to the non-index property "-1", which is not an element of the array). */
  function UserApplied(viewers: seq<Viewer>, user: TwitchUser): (r: seq<Viewer>)
    ensures ViewerIds(r) == ViewerIds(viewers)
    ensures forall j :: 0 <= j < |r| && r[j] != viewers[j] ==> r[j] == ViewerOf(user)
    ensures forall j :: 0 <= j < |r| && viewers[j].id != user.id ==> r[j] == viewers[j]
    ensures |r| == |viewers|
    ensures IndexOfViewer(viewers, user.id) >= 0 ==> r[IndexOfViewer(viewers, user.id)] == ViewerOf(user)
    ensures forall j :: 0 <= j < |r| && j != IndexOfViewer(viewers, user.id) ==> r[j] == viewers[j]
  {
    var j := IndexOfViewer(viewers, user.id);
    if j < 0 then viewers
    else
      assert ViewerIds(viewers[j := ViewerOf(user)]) == ViewerIds(viewers);
      viewers[j := ViewerOf(user)]
  }

  /** The returned users applied in the order the lookup returned them. A refresh never
      adds, removes or reorders viewers: the id sequence is unchanged. */
  function UsersApplied(viewers: seq<Viewer>, users: seq<TwitchUser>): (r: seq<Viewer>)
    ensures ViewerIds(r) == ViewerIds(viewers)
    ensures |r| == |viewers|
    decreases |users|
  {
    if users == [] then viewers else UsersApplied(UserApplied(viewers, users[0]), users[1..])
  }

  /** One step of the refresh loop: applying `users[n..]` is applying `users[n]`, which
      overwrites the first viewer with its id if there is one, and then the rest. */
  lemma UsersAppliedStep(r: seq<Viewer>, users: seq<TwitchUser>, n: int)
    requires 0 <= n < |users|
    ensures UsersApplied(r, users[n..]) == UsersApplied(UserApplied(r, users[n]), users[n + 1..])
    ensures UserApplied(r, users[n]) ==
      var j := IndexOfViewer(r, users[n].id); if j >= 0 then r[j := ViewerOf(users[n])] else r
  {
    assert users[n..][1..] == users[n + 1..];
  }

  /** The last user in `users` with id `id`, if any. */
  function LastUserWithId(users: seq<TwitchUser>, id: string): (u: Option<TwitchUser>)
    ensures u.Some? ==> u.value in users && u.value.id == id
    ensures u.None? <==> forall k :: 0 <= k < |users| ==> users[k].id != id
  {
    if users == [] then None
    else
      var later := LastUserWithId(users[1..], id);
      assert forall k :: 1 <= k < |users| ==> users[k] == users[1..][k - 1];
      if later.Some? then later else if users[0].id == id then Some(users[0]) else None
  }

  /** With distinct viewer ids, each viewer ends up as the snapshot of the latest returned
      user with its id, and a viewer no user matched is left as it was. */
  lemma {:induction false} UsersAppliedTakesLatest(viewers: seq<Viewer>, users: seq<TwitchUser>, j: int)
    requires DistinctViewerIds(viewers) && 0 <= j < |viewers|
    ensures |UsersApplied(viewers, users)| == |viewers|
    ensures UsersApplied(viewers, users)[j] ==
      match LastUserWithId(users, viewers[j].id)
      case Some(u) => ViewerOf(u)
      case None => viewers[j]
    decreases |users|
  {
    if users != [] {
      var next := UserApplied(viewers, users[0]);
      assert ViewerIds(next) == ViewerIds(viewers);
      assert forall k :: 0 <= k < |next| ==> next[k].id == viewers[k].id by {
        forall k | 0 <= k < |next| ensures next[k].id == viewers[k].id {
          assert ViewerIds(next)[k] == ViewerIds(viewers)[k];
        }
      }
      UsersAppliedTakesLatest(next, users[1..], j);
      assert LastUserWithId(users, viewers[j].id) ==
        if LastUserWithId(users[1..], viewers[j].id).Some? then LastUserWithId(users[1..], viewers[j].id)
        else if users[0].id == viewers[j].id then Some(users[0]) else None;
      if users[0].id == viewers[j].id {
        assert IndexOfViewer(viewers, users[0].id) == j;
      }
    }
  }

  /** A role after one refresh pass, given the identity lookup by ids. */
  function RoleRefreshed(role: CustomRole, getUsersByIds: seq<string> -> seq<TwitchUser>): (r: CustomRole)
    ensures r.id == role.id && r.name == role.name
    ensures ViewerIds(r.viewers) == ViewerIds(role.viewers)
  {
    role.(viewers := UsersApplied(role.viewers, getUsersByIds(ViewerIds(role.viewers))))
  }

  // ----- legacy migration -----

  /** `users.map(u => ({id, username: u.name, displayName}))`, in lookup order. */
  function ViewersOf(users: seq<TwitchUser>): seq<Viewer>
  {
    seq(|users|, k requires 0 <= k < |users| => ViewerOf(users[k]))
  }

  /** The new-format role built from a legacy role and the users its names resolved to. */
  function MigratedRole(legacy: LegacyCustomRole, users: seq<TwitchUser>): (r: CustomRole)
    ensures r.id == legacy.id && r.name == legacy.name
    ensures |r.viewers| == |users|
    ensures forall k :: 0 <= k < |users| ==>
      r.viewers[k].id == users[k].id && r.viewers[k].username == users[k].name &&
      r.viewers[k].displayName == users[k].displayName
  {
    CustomRole(legacy.id, legacy.name, ViewersOf(users))
  }

  /** The table after a migration, and whether every lookup succeeded. */
  datatype Migration = Migration(roles: seq<CustomRole>, completed: bool)

  /** The table after migrating `legacy` in order. A lookup that fails (`None`, the
      rejected promise) ends the migration: the roles saved before it stay saved, the
      rest are not migrated. The migration completes exactly when every lookup succeeds. */
  function Migrated(roles: seq<CustomRole>, legacy: seq<LegacyCustomRole>,
                    getUsersByNames: seq<string> -> Option<seq<TwitchUser>>): (m: Migration)
    ensures m.completed <==> forall k :: 0 <= k < |legacy| ==> getUsersByNames(legacy[k].viewers).Some?
    decreases |legacy|
  {
    if legacy == [] then Migration(roles, true)
    else match getUsersByNames(legacy[0].viewers)
      case None => Migration(roles, false)
      case Some(users) => Migrated(Assigned(roles, MigratedRole(legacy[0], users)), legacy[1..], getUsersByNames)
  }

  ghost predicate DistinctLegacyIds(legacy: seq<LegacyCustomRole>)
  {
    forall i, j :: 0 <= i < j < |legacy| ==> legacy[i].id != legacy[j].id
  }

  /** Migration keeps the table's keys unique. */
  lemma {:induction false} MigrationKeepsUniqueIds(roles: seq<CustomRole>, legacy: seq<LegacyCustomRole>,
                                                   getUsersByNames: seq<string> -> Option<seq<TwitchUser>>)
    requires UniqueRoleIds(roles)
    ensures UniqueRoleIds(Migrated(roles, legacy, getUsersByNames).roles)
    decreases |legacy|
  {
    if legacy != [] && getUsersByNames(legacy[0].viewers).Some? {
      var users := getUsersByNames(legacy[0].viewers).value;
      MigrationKeepsUniqueIds(Assigned(roles, MigratedRole(legacy[0], users)), legacy[1..], getUsersByNames);
    }
  }

  /** Migration leaves every role whose id is not migrated as it was. */
  lemma {:induction false} MigrationFrame(roles: seq<CustomRole>, legacy: seq<LegacyCustomRole>,
                                          getUsersByNames: seq<string> -> Option<seq<TwitchUser>>, id: string)
    requires forall k :: 0 <= k < |legacy| ==> legacy[k].id != id
    ensures Lookup(Migrated(roles, legacy, getUsersByNames).roles, id) == Lookup(roles, id)
    decreases |legacy|
  {
    if legacy != [] && getUsersByNames(legacy[0].viewers).Some? {
      var users := getUsersByNames(legacy[0].viewers).value;
      assert forall k :: 1 <= k < |legacy| ==> legacy[k] == legacy[1..][k - 1];
      MigrationFrame(Assigned(roles, MigratedRole(legacy[0], users)), legacy[1..], getUsersByNames, id);
    }
  }

  /** A lookup that fails at `f` ends the migration there: the roles before `f` stay
      saved, no later legacy role is saved, and the run is not completed. */
  lemma {:induction false} MigrationStopsAtFailure(roles: seq<CustomRole>, legacy: seq<LegacyCustomRole>,
                                                   getUsersByNames: seq<string> -> Option<seq<TwitchUser>>, f: int)
    requires 0 <= f < |legacy| && getUsersByNames(legacy[f].viewers).None?
    requires forall k :: 0 <= k < f ==> getUsersByNames(legacy[k].viewers).Some?
    ensures Migrated(roles, legacy, getUsersByNames) ==
            Migration(Migrated(roles, legacy[..f], getUsersByNames).roles, false)
    decreases f
  {
    if f > 0 {
      var users := getUsersByNames(legacy[0].viewers).value;
      var next := Assigned(roles, MigratedRole(legacy[0], users));
      assert legacy[1..][..f - 1] == legacy[..f][1..];
      assert forall k :: 0 <= k < f - 1 ==> legacy[1..][k] == legacy[k + 1];
      MigrationStopsAtFailure(next, legacy[1..], getUsersByNames, f - 1);
    }
  }

  lemma DistinctLegacyTail(legacy: seq<LegacyCustomRole>)
    requires DistinctLegacyIds(legacy) && legacy != []
    ensures DistinctLegacyIds(legacy[1..])
    ensures forall m :: 0 <= m < |legacy| - 1 ==> legacy[1..][m].id != legacy[0].id
  {
    var rest := legacy[1..];
    assert forall m :: 0 <= m < |rest| ==> rest[m] == legacy[m + 1];
  }

  /** After a completed migration of roles with distinct ids, every legacy role is stored
      under its own id, with its name and with viewers in exactly the lookup's order. */
  lemma {:induction false} MigrationInstallsEveryRole(roles: seq<CustomRole>, legacy: seq<LegacyCustomRole>,
                                                      getUsersByNames: seq<string> -> Option<seq<TwitchUser>>, k: int)
    requires DistinctLegacyIds(legacy) && 0 <= k < |legacy|
    requires Migrated(roles, legacy, getUsersByNames).completed
    ensures getUsersByNames(legacy[k].viewers).Some?
    ensures Lookup(Migrated(roles, legacy, getUsersByNames).roles, legacy[k].id) ==
            Some(MigratedRole(legacy[k], getUsersByNames(legacy[k].viewers).value))
    decreases |legacy|
  {
    var users := getUsersByNames(legacy[0].viewers).value;
    var next := Assigned(roles, MigratedRole(legacy[0], users));
    assert Migrated(roles, legacy, getUsersByNames) == Migrated(next, legacy[1..], getUsersByNames);
    DistinctLegacyTail(legacy);
    if k == 0 {
      MigrationFrame(next, legacy[1..], getUsersByNames, legacy[0].id);
    } else {
      assert legacy[1..][k - 1] == legacy[k];
      MigrationInstallsEveryRole(next, legacy[1..], getUsersByNames, k - 1);
    }
  }

  /** A legacy role `{id: "1", name: "VIPs", viewers: ["alice"]}` whose one name resolves
      migrates to the new shape with alice's snapshot, and the migration completes. */
  lemma MigrationExample()
    ensures Migrated([], [LegacyCustomRole("1", "VIPs", ["alice"])],
                     (names: seq<string>) => if names == ["alice"] then Some([TwitchUser("u1", "alice", "Alice")]) else None)
            == Migration([CustomRole("1", "VIPs", [Viewer("u1", "alice", "Alice")])], true)
  {
    var m := MigratedRole(LegacyCustomRole("1", "VIPs", ["alice"]), [TwitchUser("u1", "alice", "Alice")]);
    assert m.viewers == [Viewer("u1", "alice", "Alice")];
    assert Assigned([], m) == [m];
  }
}
