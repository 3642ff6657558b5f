/** What the custom-role store's operations promise when composed: idempotence of
    adding a viewer, add/remove round trips, uniqueness of viewer ids, and what the
    queries answer after an update. */
module RoleStoreProperties {
  import opened RoleTypes
  import opened Text
  import opened CustomRoles

  /** After adding, the role stored under `roleId` is the one at the same position. */
  lemma IndexOfRoleAfterAdd(roles: seq<CustomRole>, roleId: string, viewer: Option<Viewer>)
    requires AddsViewer(roles, roleId, viewer)
    ensures IndexOfRole(WithViewerAdded(roles, roleId, viewer), roleId) == IndexOfRole(roles, roleId)
  {
    var r := WithViewerAdded(roles, roleId, viewer);
    var i := IndexOfRole(roles, roleId);
    assert r[i].id == roleId;
    assert forall k :: 0 <= k < i ==> r[k] == roles[k];
  }

  /** Adding a present viewer with an id to an existing role makes it a member,
      whether or not it already was one. */
  lemma {:induction false} AddViewerMakesMember(roles: seq<CustomRole>, roleId: string, viewer: Viewer)
    requires viewer.id != "" && Lookup(roles, roleId).Some?
    ensures IsMember(WithViewerAdded(roles, roleId, Some(viewer)), roleId, viewer.id)
  {
    var r := WithViewerAdded(roles, roleId, Some(viewer));
    if AddsViewer(roles, roleId, Some(viewer)) {
      IndexOfRoleAfterAdd(roles, roleId, Some(viewer));
      var i := IndexOfRole(roles, roleId);
      assert r[i].viewers[|roles[i].viewers|] == viewer;
    }
  }

  /** `addViewerToRole` is idempotent: a second identical call changes nothing. */
  lemma {:induction false} AddViewerIdempotent(roles: seq<CustomRole>, roleId: string, viewer: Option<Viewer>)
    ensures WithViewerAdded(WithViewerAdded(roles, roleId, viewer), roleId, viewer) ==
            WithViewerAdded(roles, roleId, viewer)
  {
    if AddsViewer(roles, roleId, viewer) {
      AddViewerMakesMember(roles, roleId, viewer.value);
    }
  }

  /** Adding never introduces a second entry for a viewer id. */
  lemma {:induction false} AddViewerKeepsViewerIdsDistinct(roles: seq<CustomRole>, roleId: string, viewer: Option<Viewer>)
    requires AllViewerIdsDistinct(roles)
    ensures AllViewerIdsDistinct(WithViewerAdded(roles, roleId, viewer))
  {
    if AddsViewer(roles, roleId, viewer) {
      var i := IndexOfRole(roles, roleId);
      var vs := roles[i].viewers;
      assert forall j :: 0 <= j < |vs| ==> vs[j].id != viewer.value.id by {
        assert !(viewer.value.id in ViewerIds(vs));
      }
    }
  }

  /** Removing the viewer that was just added restores the table exactly. */
  lemma {:induction false} AddThenRemoveRestores(roles: seq<CustomRole>, roleId: string, viewer: Viewer)
    requires AddsViewer(roles, roleId, Some(viewer))
    ensures WithViewerRemoved(WithViewerAdded(roles, roleId, Some(viewer)), roleId, viewer.id) == roles
  {
    var added := WithViewerAdded(roles, roleId, Some(viewer));
    var i := IndexOfRole(roles, roleId);
    var vs := roles[i].viewers;
    AddViewerMakesMember(roles, roleId, viewer);
    IndexOfRoleAfterAdd(roles, roleId, Some(viewer));
    assert forall j :: 0 <= j < |vs| ==> vs[j].id != viewer.id by {
      assert !(viewer.id in ViewerIds(vs));
    }
    var ws := added[i].viewers;
    assert ws == vs + [viewer];
    assert IndexOfViewer(ws, viewer.id) == |vs| by {
      assert ws[|vs|].id == viewer.id;
      assert forall j :: 0 <= j < |vs| ==> ws[j].id != viewer.id;
    }
    assert ws[..|vs|] + ws[|vs| + 1..] == vs;
    var removed := WithViewerRemoved(added, roleId, viewer.id);
    assert removed[i] == roles[i];
  }

  /** Splicing one entry out of distinct viewers leaves them distinct and drops its id. */
  lemma SpliceDropsId(vs: seq<Viewer>, j: int)
    requires DistinctViewerIds(vs) && 0 <= j < |vs|
    ensures DistinctViewerIds(vs[..j] + vs[j + 1..])
    ensures vs[j].id !in ViewerIds(vs[..j] + vs[j + 1..])
  {
    var ws := vs[..j] + vs[j + 1..];
    assert forall k :: 0 <= k < |ws| ==> ws[k] == vs[if k < j then k else k + 1];
  }

  /** After a removal, the role stored under `roleId` is the one at the same position. */
  lemma IndexOfRoleAfterRemove(roles: seq<CustomRole>, roleId: string, userId: string)
    requires RemovesViewer(roles, roleId, userId)
    ensures IndexOfRole(WithViewerRemoved(roles, roleId, userId), roleId) == IndexOfRole(roles, roleId)
  {
    var r := WithViewerRemoved(roles, roleId, userId);
    var i := IndexOfRole(roles, roleId);
    assert r[i].id == roleId;
    assert forall k :: 0 <= k < i ==> r[k] == roles[k];
  }

  /** When a role's viewer ids are distinct, removing a viewer leaves it no longer a member. */
  lemma {:induction false} RemoveViewerLeavesNonMember(roles: seq<CustomRole>, roleId: string, userId: string)
    requires AllViewerIdsDistinct(roles) && userId != ""
    ensures !IsMember(WithViewerRemoved(roles, roleId, userId), roleId, userId)
  {
    if RemovesViewer(roles, roleId, userId) {
      var i := IndexOfRole(roles, roleId);
      SpliceDropsId(roles[i].viewers, IndexOfViewer(roles[i].viewers, userId));
      IndexOfRoleAfterRemove(roles, roleId, userId);
    }
  }

  /** Removing never introduces a second entry for a viewer id. */
  lemma {:induction false} RemoveViewerKeepsViewerIdsDistinct(roles: seq<CustomRole>, roleId: string, userId: string)
    requires AllViewerIdsDistinct(roles)
    ensures AllViewerIdsDistinct(WithViewerRemoved(roles, roleId, userId))
  {
    if RemovesViewer(roles, roleId, userId) {
      var i := IndexOfRole(roles, roleId);
      SpliceDropsId(roles[i].viewers, IndexOfViewer(roles[i].viewers, userId));
    }
  }

  /** Removing a viewer and adding it back makes it a member again. */
  lemma {:induction false} RemoveThenAddRestoresMembership(roles: seq<CustomRole>, roleId: string, viewer: Viewer)
    requires viewer.id != "" && Lookup(roles, roleId).Some?
    ensures IsMember(WithViewerAdded(WithViewerRemoved(roles, roleId, viewer.id), roleId, Some(viewer)), roleId, viewer.id)
  {
    var removed := WithViewerRemoved(roles, roleId, viewer.id);
    if RemovesViewer(roles, roleId, viewer.id) {
      var i := IndexOfRole(roles, roleId);
      assert removed[i].id == roleId;
    }
    AddViewerMakesMember(removed, roleId, viewer);
  }

  /** With unique role ids, the roles listed for a viewer are exactly the roles it is a member of. */
  lemma {:induction false} CustomRolesForViewerIsMembership(roles: seq<CustomRole>, userId: string, roleId: string)
    requires UniqueRoleIds(roles) && Lookup(roles, roleId).Some?
    ensures var role := Lookup(roles, roleId).value;
      RoleRef(role.id, role.name) in CustomRolesForViewer(roles, userId) <==> IsMember(roles, roleId, userId)
  {
    var role := Lookup(roles, roleId).value;
    var i := IndexOfRole(roles, roleId);
    if RoleRef(role.id, role.name) in CustomRolesForViewer(roles, userId) {
      var k :| 0 <= k < |roles| && userId in ViewerIds(roles[k].viewers) && RoleRef(role.id, role.name) == RoleRef(roles[k].id, roles[k].name);
      IndexOfUniqueRole(roles, k);
    }
  }

  /** After adding a viewer to an existing role, the viewer's roles include it. */
  lemma {:induction false} CustomRolesForViewerAfterAdd(roles: seq<CustomRole>, roleId: string, viewer: Viewer)
    requires UniqueRoleIds(roles) && viewer.id != "" && Lookup(roles, roleId).Some?
    ensures var role := Lookup(roles, roleId).value;
      RoleRef(role.id, role.name) in CustomRolesForViewer(WithViewerAdded(roles, roleId, Some(viewer)), viewer.id)
  {
    var r := WithViewerAdded(roles, roleId, Some(viewer));
    AddViewerMakesMember(roles, roleId, viewer);
    var i := IndexOfRole(roles, roleId);
    assert Lookup(r, roleId).Some?;
    assert Lookup(r, roleId).value.name == roles[i].name && Lookup(r, roleId).value.id == roleId by {
      if AddsViewer(roles, roleId, Some(viewer)) { IndexOfRoleAfterAdd(roles, roleId, Some(viewer)); }
    }
    CustomRolesForViewerIsMembership(r, viewer.id, roleId);
  }

  /** After removing a viewer (viewer ids distinct), the viewer's roles no longer include that role. */
  lemma {:induction false} CustomRolesForViewerAfterRemove(roles: seq<CustomRole>, roleId: string, userId: string)
    requires UniqueRoleIds(roles) && AllViewerIdsDistinct(roles) && userId != "" && Lookup(roles, roleId).Some?
    ensures var role := Lookup(roles, roleId).value;
      RoleRef(role.id, role.name) !in CustomRolesForViewer(WithViewerRemoved(roles, roleId, userId), userId)
  {
    var r := WithViewerRemoved(roles, roleId, userId);
    RemoveViewerLeavesNonMember(roles, roleId, userId);
    var i := IndexOfRole(roles, roleId);
    assert r[i].id == roleId && r[i].name == roles[i].name;
    IndexOfUniqueRole(r, i);
    CustomRolesForViewerIsMembership(r, userId, roleId);
  }

  /** A saved role is found by its own name (ignoring case) unless another role's name clashes with it. */
  lemma {:induction false} SavedRoleFoundByName(roles: seq<CustomRole>, role: CustomRole)
    requires UniqueRoleIds(roles)
    requires forall k :: 0 <= k < |roles| && roles[k].id != role.id ==> !EqualsIgnoreCase(roles[k].name, role.name)
    ensures RoleByName(Assigned(roles, role), role.name) == Some(role)
  {
    var r := Assigned(roles, role);
    assert forall k :: 0 <= k < |r| && r[k].id != role.id ==> r[k] in roles;
    assert forall k :: 0 <= k < |r| && r[k].id == role.id ==> r[k] == role by {
      forall k | 0 <= k < |r| && r[k].id == role.id ensures r[k] == role {
        IndexOfUniqueRole(r, k);
      }
    }
    assert role in r;
  }

  /** Deleting a role just saved under a new, non-empty id restores the table. */
  lemma {:induction false} SaveThenDeleteRestores(roles: seq<CustomRole>, role: CustomRole)
    requires role.id != "" && Lookup(roles, role.id).None?
    ensures Deleted(Assigned(roles, role), role.id) == roles
  {
    var r := roles + [role];
    assert forall k :: 0 <= k < |roles| ==> roles[k].id != role.id;
    assert IndexOfRole(r, role.id) == |roles| by { assert r[|roles|].id == role.id; }
    assert r[..|roles|] == roles;
  }

  /** A role saved under the empty id cannot be deleted: the delete guard ignores empty ids. */
  lemma EmptyIdRoleSurvivesDelete(roles: seq<CustomRole>, role: CustomRole)
    requires role.id == ""
    ensures Lookup(Deleted(Assigned(roles, role), role.id), "") == Some(role)
  {
  }

  /** `userIsInRole("u1", ["moderator"], ["modRoleId"])` holds when "moderator" maps to that id. */
  lemma ModeratorMappedToCheckedId(roles: seq<CustomRole>, mapTwitchRole: string -> Option<RoleRef>)
    requires mapTwitchRole("moderator").Some? && mapTwitchRole("moderator").value.id == "modRoleId"
    ensures UserIsInRole(roles, "u1", Some(["moderator"]), ["modRoleId"], mapTwitchRole)
  {
    assert "moderator" in ["moderator"];
  }

  /** ... and fails when "moderator" maps to nothing or to another id, and no custom role
      of "u1" has that id. */
  lemma ModeratorMappedElsewhere(roles: seq<CustomRole>, mapTwitchRole: string -> Option<RoleRef>)
    requires mapTwitchRole("moderator").None? || mapTwitchRole("moderator").value.id != "modRoleId"
    requires forall k :: 0 <= k < |roles| && "u1" in ViewerIds(roles[k].viewers) ==> roles[k].id != "modRoleId"
    ensures !UserIsInRole(roles, "u1", Some(["moderator"]), ["modRoleId"], mapTwitchRole)
  {
    assert forall t :: t in ["moderator"] ==> t == "moderator";
  }
}
