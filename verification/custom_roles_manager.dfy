/** The custom-role store as the object the rest of the application talks to: the
    table `_customRoles` is a field that every update reassigns, and each method is
    proved to leave exactly the table its specification function describes. */
module RolesManager {
  import opened RoleTypes
  import opened CustomRoles
  import opened RoleSync

  /** The inner loop of the identity refresh: each returned user overwrites the first
      viewer with its id, in the order the lookup returned them. */
  method RefreshViewers(viewers: seq<Viewer>, users: seq<TwitchUser>) returns (r: seq<Viewer>)
    ensures r == UsersApplied(viewers, users)
    ensures ViewerIds(r) == ViewerIds(viewers)
  {
    r := viewers;
    var n := 0;
    while n < |users|
      invariant 0 <= n <= |users|
      invariant UsersApplied(r, users[n..]) == UsersApplied(viewers, users)
      invariant ViewerIds(r) == ViewerIds(viewers)
    {
      UsersAppliedStep(r, users, n);
      var user := users[n];
      var viewerIndex := IndexOfViewer(r, user.id);
      if viewerIndex >= 0 {
        r := r[viewerIndex := ViewerOf(user)];
      }
      n := n + 1;
    }
  }

  /** The role-building loop of the migration: the legacy id and name, and one snapshot
      per returned user, pushed in the order the lookup returned them. */
  method BuildMigratedRole(legacy: LegacyCustomRole, users: seq<TwitchUser>) returns (role: CustomRole)
    ensures role == MigratedRole(legacy, users)
    ensures role.id == legacy.id && role.name == legacy.name && |role.viewers| == |users|
    ensures forall k :: 0 <= k < |users| ==> role.viewers[k] == ViewerOf(users[k])
  {
    role := CustomRole(legacy.id, legacy.name, []);
    var n := 0;
    while n < |users|
      invariant 0 <= n <= |users|
      invariant role == MigratedRole(legacy, users[..n])
    {
      var user := users[n];
      role := role.(viewers := role.viewers + [Viewer(user.id, user.name, user.displayName)]);
      n := n + 1;
    }
    assert users[..n] == users;
  }

  class CustomRolesManager {
    /** `_customRoles`: the roles in property order, each stored under its own id. */
    var roles: seq<CustomRole>

    ghost predicate Valid()
      reads this
    {
      UniqueRoleIds(roles)
    }

    constructor ()
      ensures Valid() && roles == []
    {
      roles := [];
    }

    /** `getCustomRoles`: every stored role, once, each under its own id. */
    function GetCustomRoles(): (r: seq<CustomRole>)
      reads this
      requires Valid()
      ensures UniqueRoleIds(r)
      ensures forall k :: 0 <= k < |r| ==> Lookup(roles, r[k].id) == Some(r[k])
      ensures forall id :: Lookup(roles, id).Some? ==> Lookup(roles, id).value in r
    {
      assert forall k :: 0 <= k < |roles| ==> Lookup(roles, roles[k].id) == Some(roles[k]) by {
        forall k | 0 <= k < |roles| ensures Lookup(roles, roles[k].id) == Some(roles[k]) {
          IndexOfUniqueRole(roles, k);
        }
      }
      roles
    }

    /** `saveCustomRole`: create or replace the role under its id; a missing role is ignored. */
    method SaveCustomRole(role: Option<CustomRole>)
      requires Valid()
      modifies this
      ensures Valid()
      ensures role.None? ==> roles == old(roles)
      ensures role.Some? ==> roles == Assigned(old(roles), role.value)
      ensures role.Some? ==>
        forall id :: Lookup(roles, id) == if id == role.value.id then role else Lookup(old(roles), id)
    {
      if role.None? {
        return;
      }
      roles := Assigned(roles, role.value);
    }

    /** `addViewerToRole` */
    method AddViewerToRole(roleId: string, viewer: Option<Viewer>)
      requires Valid()
      modifies this
      ensures Valid()
      ensures roles == WithViewerAdded(old(roles), roleId, viewer)
    {
      if viewer.None? || |viewer.value.id| == 0 {
        return;
      }
      var role := Lookup(roles, roleId);
      if role.Some? {
        if viewer.value.id in ViewerIds(role.value.viewers) {
          return;
        }
        var v := viewer.value;
        SaveCustomRole(Some(role.value.(viewers := role.value.viewers + [Viewer(v.id, v.username, v.displayName)])));
      }
    }

    /** `removeViewerFromRole` */
    method RemoveViewerFromRole(roleId: string, userId: string)
      requires Valid()
      modifies this
      ensures Valid()
      ensures roles == WithViewerRemoved(old(roles), roleId, userId)
    {
      if |userId| == 0 {
        return;
      }
      var role := Lookup(roles, roleId);
      if role.Some? {
        var index := IndexOfViewer(role.value.viewers, userId);
        if index == -1 {
          return;
        }
        var viewers := role.value.viewers;
        SaveCustomRole(Some(role.value.(viewers := viewers[..index] + viewers[index + 1..])));
      }
    }

    /** `removeAllViewersFromRole` */
    method RemoveAllViewersFromRole(roleId: string)
      requires Valid()
      modifies this
      ensures Valid()
      ensures roles == WithViewersCleared(old(roles), roleId)
    {
      var role := Lookup(roles, roleId);
      if role.Some? {
        SaveCustomRole(Some(role.value.(viewers := [])));
      }
    }

    /** `deleteCustomRole`: an empty id is ignored. */
    method DeleteCustomRole(roleId: string)
      requires Valid()
      modifies this
      ensures Valid()
      ensures roles == Deleted(old(roles), roleId)
      ensures roleId != "" ==>
        forall id :: Lookup(roles, id) == if id == roleId then None else Lookup(old(roles), id)
    {
      if |roleId| == 0 {
        return;
      }
      roles := Deleted(roles, roleId);
    }

    /** `refreshCustomRolesUserData`: every role, in table order, gets its viewers'
        identities from one lookup by ids and is saved back under its own id. */
    method RefreshCustomRolesUserData(getUsersByIds: seq<string> -> seq<TwitchUser>)
      requires Valid()
      modifies this
      ensures Valid()
      ensures |roles| == |old(roles)|
      ensures forall k :: 0 <= k < |roles| ==> roles[k] == RoleRefreshed(old(roles)[k], getUsersByIds)
      ensures forall k :: 0 <= k < |roles| ==> ViewerIds(roles[k].viewers) == ViewerIds(old(roles)[k].viewers)
    {
      var customRoles := roles;
      var k := 0;
      while k < |customRoles|
        invariant 0 <= k <= |customRoles|
        invariant Valid() && |roles| == |customRoles|
        invariant forall m :: 0 <= m < k ==> roles[m] == RoleRefreshed(customRoles[m], getUsersByIds)
        invariant forall m :: k <= m < |customRoles| ==> roles[m] == customRoles[m]
      {
        var customRole := customRoles[k];
        var users := getUsersByIds(ViewerIds(customRole.viewers));
        var viewers := RefreshViewers(customRole.viewers, users);
        IndexOfUniqueRole(roles, k);
        SaveCustomRole(Some(customRole.(viewers := viewers)));
        k := k + 1;
      }
    }

    /** `migrateLegacyCustomRoles`: `legacy` is the legacy document (`None` when there is
        none). Each legacy role is rebuilt from its lookup and saved, in order; the
        result says whether the legacy document was deleted, which happens only when
        every lookup succeeded. */
    method MigrateLegacyCustomRoles(legacy: Option<seq<LegacyCustomRole>>,
                                    getUsersByNames: seq<string> -> Option<seq<TwitchUser>>)
      returns (legacyDeleted: bool)
      requires Valid()
      modifies this
      ensures Valid()
      ensures legacy.None? ==> roles == old(roles) && !legacyDeleted
      ensures legacy.Some? ==> Migration(roles, legacyDeleted) == Migrated(old(roles), legacy.value, getUsersByNames)
    {
      legacyDeleted := false;
      if legacy.None? {
        return;
      }
      var legacyRoles := legacy.value;
      var n := 0;
      while n < |legacyRoles|
        invariant 0 <= n <= |legacyRoles|
        invariant Valid()
        invariant Migrated(roles, legacyRoles[n..], getUsersByNames) == Migrated(old(roles), legacyRoles, getUsersByNames)
      {
        var legacyRole := legacyRoles[n];
        assert legacyRoles[n..][0] == legacyRole && legacyRoles[n..][1..] == legacyRoles[n + 1..];
        var users := getUsersByNames(legacyRole.viewers);
        if users.None? {
          return;
        }
        var newCustomRole := BuildMigratedRole(legacyRole, users.value);
        SaveCustomRole(Some(newCustomRole));
        n := n + 1;
      }
      legacyDeleted := true;
    }
  }
}
