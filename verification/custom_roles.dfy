/** The custom-role table `_customRoles` as a value: the roles in property
    (insertion) order, each stored under its own id, and the operations of the
    store as functions of that value. The class in custom_roles_manager.dfy
    performs the same updates in place and is proved against these functions. */
module CustomRoles {
  import opened RoleTypes
  import opened Sequences
  import opened Text

  /** No two roles share an id: the ids are the keys of the table. */
  ghost predicate UniqueRoleIds(roles: seq<CustomRole>)
  {
    forall i, j :: 0 <= i < j < |roles| ==> roles[i].id != roles[j].id
  }

  /** Position of the role stored under `id`, or -1. */
  function IndexOfRole(roles: seq<CustomRole>, id: string): int
  {
    FindIndex(roles, (r: CustomRole) => r.id == id)
  }

  /** `_customRoles[id]`: the role stored under `id`, if any. */
  function Lookup(roles: seq<CustomRole>, id: string): (r: Option<CustomRole>)
    ensures r.Some? <==> exists k :: 0 <= k < |roles| && roles[k].id == id
    ensures r.Some? ==> r.value.id == id && r.value in roles
  {
    var k := IndexOfRole(roles, id);
    if k < 0 then None else Some(roles[k])
  }

  lemma IndexOfUniqueRole(roles: seq<CustomRole>, k: int)
    requires UniqueRoleIds(roles) && 0 <= k < |roles|
    ensures IndexOfRole(roles, roles[k].id) == k
    ensures Lookup(roles, roles[k].id) == Some(roles[k])
  {
  }

  /** Replacing an entry by one with the same id leaves the other entries where they are. */
  lemma IndexOfRoleAfterReplace(roles: seq<CustomRole>, i: int, role: CustomRole, id: string)
    requires 0 <= i < |roles| && roles[i].id == role.id
    ensures IndexOfRole(roles[i := role], id) == IndexOfRole(roles, id)
  {
    var p := (r: CustomRole) => r.id == id;
    assert forall k :: 0 <= k < |roles| ==> p(roles[i := role][k]) == p(roles[k]);
  }

  /** `_customRoles[role.id] = role`: an existing key keeps its position and gets the
      new value, a new key is appended at the end. */
  function Assigned(roles: seq<CustomRole>, role: CustomRole): (r: seq<CustomRole>)
    ensures forall id :: Lookup(r, id) == if id == role.id then Some(role) else Lookup(roles, id)
    ensures UniqueRoleIds(roles) ==> UniqueRoleIds(r)
    ensures Lookup(roles, role.id).Some? ==>
      |r| == |roles| && r[IndexOfRole(roles, role.id)] == role &&
      forall k :: 0 <= k < |roles| && k != IndexOfRole(roles, role.id) ==> r[k] == roles[k]
    ensures Lookup(roles, role.id).None? ==> r == roles + [role]
  {
    var i := IndexOfRole(roles, role.id);
    if i < 0 then
      LookupAfterAppend(roles, role);
      roles + [role]
    else
      LookupAfterReplace(roles, i, role);
      roles[i := role]
  }

  /** Appending a role under a new key adds exactly that key. */
  lemma LookupAfterAppend(roles: seq<CustomRole>, role: CustomRole)
    requires IndexOfRole(roles, role.id) < 0
    ensures forall id :: Lookup(roles + [role], id) == if id == role.id then Some(role) else Lookup(roles, id)
  {
    forall id ensures Lookup(roles + [role], id) == if id == role.id then Some(role) else Lookup(roles, id) {
      var p := (r: CustomRole) => r.id == id;
      assert forall k :: 0 <= k < |roles| ==> p((roles + [role])[k]) == p(roles[k]);
      assert p((roles + [role])[|roles|]) == (id == role.id);
    }
  }

  /** Overwriting the entry of an existing key changes only that key's value. */
  lemma LookupAfterReplace(roles: seq<CustomRole>, i: int, role: CustomRole)
    requires 0 <= i < |roles| && i == IndexOfRole(roles, role.id)
    ensures forall id :: Lookup(roles[i := role], id) == if id == role.id then Some(role) else Lookup(roles, id)
  {
    forall id ensures Lookup(roles[i := role], id) == if id == role.id then Some(role) else Lookup(roles, id) {
      IndexOfRoleAfterReplace(roles, i, role, id);
    }
  }

  /** `delete _customRoles[roleId]`, guarded as the source guards it: an empty id is ignored. */
  function Deleted(roles: seq<CustomRole>, roleId: string): (r: seq<CustomRole>)
    ensures roleId == "" || Lookup(roles, roleId).None? ==> r == roles
    ensures roleId != "" && UniqueRoleIds(roles) ==>
      UniqueRoleIds(r) && forall id :: Lookup(r, id) == if id == roleId then None else Lookup(roles, id)
    ensures roleId != "" && Lookup(roles, roleId).Some? ==>
      var i := IndexOfRole(roles, roleId); r == roles[..i] + roles[i + 1..]
  {
    var i := IndexOfRole(roles, roleId);
    if roleId == "" || i < 0 then roles
    else
      LookupAfterRemove(roles, i);
      roles[..i] + roles[i + 1..]
  }

  /** Removing the entry at `i` from a table with unique keys removes exactly its key. */
  lemma LookupAfterRemove(roles: seq<CustomRole>, i: int)
    requires 0 <= i < |roles|
    ensures UniqueRoleIds(roles) ==>
      UniqueRoleIds(roles[..i] + roles[i + 1..]) &&
      forall id :: Lookup(roles[..i] + roles[i + 1..], id) == if id == roles[i].id then None else Lookup(roles, id)
  {
    if UniqueRoleIds(roles) {
      forall id ensures Lookup(roles[..i] + roles[i + 1..], id) == if id == roles[i].id then None else Lookup(roles, id) {
        LookupAfterRemoveAt(roles, i, id);
      }
    }
  }

  lemma LookupAfterRemoveAt(roles: seq<CustomRole>, i: int, id: string)
    requires UniqueRoleIds(roles) && 0 <= i < |roles|
    ensures UniqueRoleIds(roles[..i] + roles[i + 1..])
    ensures Lookup(roles[..i] + roles[i + 1..], id) == if id == roles[i].id then None else Lookup(roles, id)
  {
    var r := roles[..i] + roles[i + 1..];
    assert forall k :: 0 <= k < |r| ==> r[k] == roles[if k < i then k else k + 1];
    if k :| 0 <= k < |roles| && roles[k].id == id {
      IndexOfUniqueRole(roles, k);
      if k != i {
        var k' := if k < i then k else k - 1;
        assert r[k'] == roles[k];
        IndexOfUniqueRole(r, k');
      }
    }
  }

  // ----- viewers of one role -----

  /** Position of the first viewer with id `id`, or -1 (`viewers.map(v => v.id).indexOf(id)`). */
  function IndexOfViewer(viewers: seq<Viewer>, id: string): (j: int)
    ensures -1 <= j < |viewers|
    ensures j >= 0 <==> id in ViewerIds(viewers)
    ensures j >= 0 ==> viewers[j].id == id && forall k :: 0 <= k < j ==> viewers[k].id != id
  {
    FindIndex(viewers, (v: Viewer) => v.id == id)
  }

  /** Every role keeps at most one entry per viewer id. */
  ghost predicate AllViewerIdsDistinct(roles: seq<CustomRole>)
  {
    forall k :: 0 <= k < |roles| ==> DistinctViewerIds(roles[k].viewers)
  }

  /** True when `userId` is one of the viewers of the role stored under `roleId`. */
  predicate IsMember(roles: seq<CustomRole>, roleId: string, userId: string)
  {
    Lookup(roles, roleId).Some? && userId in ViewerIds(Lookup(roles, roleId).value.viewers)
  }

  /** The guard of `addViewerToRole`: the viewer is present and has an id, the role
      exists, and the viewer is not yet a member of it. */
  predicate AddsViewer(roles: seq<CustomRole>, roleId: string, viewer: Option<Viewer>)
  {
    viewer.Some? && viewer.value.id != "" && Lookup(roles, roleId).Some? &&
    !IsMember(roles, roleId, viewer.value.id)
  }

  /** `addViewerToRole`: appends a snapshot of the viewer to the role's viewers. */
  function WithViewerAdded(roles: seq<CustomRole>, roleId: string, viewer: Option<Viewer>): (r: seq<CustomRole>)
    ensures !AddsViewer(roles, roleId, viewer) ==> r == roles
    ensures AddsViewer(roles, roleId, viewer) ==>
      var i := IndexOfRole(roles, roleId);
      |r| == |roles| &&
      r[i] == CustomRole(roles[i].id, roles[i].name, roles[i].viewers + [viewer.value]) &&
      forall k :: 0 <= k < |roles| && k != i ==> r[k] == roles[k]
    ensures UniqueRoleIds(roles) ==> UniqueRoleIds(r)
  {
    if !AddsViewer(roles, roleId, viewer) then roles
    else
      var role := Lookup(roles, roleId).value;
      var v := viewer.value;
      Assigned(roles, role.(viewers := role.viewers + [Viewer(v.id, v.username, v.displayName)]))
  }

  /** The guard of `removeViewerFromRole`: the id is non-empty and a member of the role. */
  predicate RemovesViewer(roles: seq<CustomRole>, roleId: string, userId: string)
  {
    userId != "" && IsMember(roles, roleId, userId)
  }

  /** `removeViewerFromRole`: splices out the first viewer with that id. */
  function WithViewerRemoved(roles: seq<CustomRole>, roleId: string, userId: string): (r: seq<CustomRole>)
    ensures !RemovesViewer(roles, roleId, userId) ==> r == roles
    ensures RemovesViewer(roles, roleId, userId) ==>
      var i := IndexOfRole(roles, roleId);
      var vs := roles[i].viewers;
      var j := IndexOfViewer(vs, userId);
      0 <= j < |vs| && vs[j].id == userId &&
      |r| == |roles| &&
      r[i] == CustomRole(roles[i].id, roles[i].name, vs[..j] + vs[j + 1..]) &&
      forall k :: 0 <= k < |roles| && k != i ==> r[k] == roles[k]
    ensures UniqueRoleIds(roles) ==> UniqueRoleIds(r)
  {
    if !RemovesViewer(roles, roleId, userId) then roles
    else
      var role := Lookup(roles, roleId).value;
      var j := IndexOfViewer(role.viewers, userId);
      Assigned(roles, role.(viewers := role.viewers[..j] + role.viewers[j + 1..]))
  }

  /** `removeAllViewersFromRole`: the role keeps its id, name and position and has no viewers. */
  function WithViewersCleared(roles: seq<CustomRole>, roleId: string): (r: seq<CustomRole>)
    ensures Lookup(roles, roleId).None? ==> r == roles
    ensures Lookup(roles, roleId).Some? ==>
      var i := IndexOfRole(roles, roleId);
      |r| == |roles| &&
      r[i] == CustomRole(roles[i].id, roles[i].name, []) &&
      forall k :: 0 <= k < |roles| && k != i ==> r[k] == roles[k]
    ensures UniqueRoleIds(roles) ==> UniqueRoleIds(r)
  {
    match Lookup(roles, roleId)
    case None => roles
    case Some(role) => Assigned(roles, role.(viewers := []))
  }

  // ----- queries -----

  /** `roles.map(r => r.name)` */
  function RoleNames(roles: seq<CustomRole>): seq<string>
  {
    seq(|roles|, k requires 0 <= k < |roles| => roles[k].name)
  }

  /** `getRoleByName`: the first role whose name equals `name` ignoring case. */
  function RoleByName(roles: seq<CustomRole>, name: string): (r: Option<CustomRole>)
    ensures r.None? <==> forall k :: 0 <= k < |roles| ==> !EqualsIgnoreCase(roles[k].name, name)
    ensures r.Some? ==>
      exists k :: 0 <= k < |roles| && r.value == roles[k] &&
        EqualsIgnoreCase(roles[k].name, name) &&
        forall j :: 0 <= j < k ==> !EqualsIgnoreCase(roles[j].name, name)
  {
    var names := RoleNames(roles);
    assert forall k :: 0 <= k < |roles| ==> names[k] == roles[k].name;
    var k := FindIndexIgnoreCase(names, name);
    if k < 0 then None else Some(roles[k])
  }

  /** `getAllCustomRolesForViewer`: `{id, name}` of the roles that have `userId` among
      their viewers, in table order. */
  function CustomRolesForViewer(roles: seq<CustomRole>, userId: string): (r: seq<RoleRef>)
    ensures |r| <= |roles|
    ensures forall ref :: ref in r <==>
      exists k :: 0 <= k < |roles| && userId in ViewerIds(roles[k].viewers) && ref == RoleRef(roles[k].id, roles[k].name)
    ensures UniqueRoleIds(roles) ==> forall i, j :: 0 <= i < j < |r| ==> r[i].id != r[j].id
  {
    if roles == [] then []
    else
      var rest := CustomRolesForViewer(roles[1..], userId);
      assert forall k :: 0 <= k < |roles| - 1 ==> roles[1..][k] == roles[k + 1];
      assert UniqueRoleIds(roles) ==> forall i :: 0 <= i < |rest| ==> rest[i].id != roles[0].id by {
        if UniqueRoleIds(roles) {
          forall i | 0 <= i < |rest| ensures rest[i].id != roles[0].id { assert rest[i] in rest; }
        }
      }
      if userId in ViewerIds(roles[0].viewers) then [RoleRef(roles[0].id, roles[0].name)] + rest else rest
  }

  /** A candidate role grants access when it is present and its id is one of `roleIds`. */
  predicate Grants(c: Option<RoleRef>, roleIds: seq<string>)
  {
    c.Some? && c.value.id in roleIds
  }

  lemma AnyGrantsConcat(a: seq<Option<RoleRef>>, b: seq<Option<RoleRef>>, roleIds: seq<string>)
    ensures (exists c | c in a + b :: Grants(c, roleIds)) <==>
            (exists c | c in a :: Grants(c, roleIds)) || (exists c | c in b :: Grants(c, roleIds))
  {
    assert forall c :: c in a + b <==> c in a || c in b;
  }

  lemma AnyGrantsMapped(twitch: seq<string>, mapTwitchRole: string -> Option<RoleRef>, roleIds: seq<string>,
                        mapped: seq<Option<RoleRef>>)
    requires |mapped| == |twitch| && forall i :: 0 <= i < |twitch| ==> mapped[i] == mapTwitchRole(twitch[i])
    ensures (exists c | c in mapped :: Grants(c, roleIds)) <==>
            exists t :: t in twitch && Grants(mapTwitchRole(t), roleIds)
  {
    if t :| t in twitch && Grants(mapTwitchRole(t), roleIds) {
      var i :| 0 <= i < |twitch| && twitch[i] == t;
      assert mapped[i] in mapped && Grants(mapped[i], roleIds);
    }
  }

  lemma AnyGrantsCustom(roles: seq<CustomRole>, userId: string, roleIds: seq<string>, wrapped: seq<Option<RoleRef>>)
    requires var custom := CustomRolesForViewer(roles, userId);
      |wrapped| == |custom| && forall i :: 0 <= i < |custom| ==> wrapped[i] == Some(custom[i])
    ensures (exists c | c in wrapped :: Grants(c, roleIds)) <==>
            exists k :: 0 <= k < |roles| && userId in ViewerIds(roles[k].viewers) && roles[k].id in roleIds
  {
    var custom := CustomRolesForViewer(roles, userId);
    if k :| 0 <= k < |roles| && userId in ViewerIds(roles[k].viewers) && roles[k].id in roleIds {
      var ref := RoleRef(roles[k].id, roles[k].name);
      assert ref in custom;
      var i :| 0 <= i < |custom| && custom[i] == ref;
      assert wrapped[i] in wrapped && Grants(wrapped[i], roleIds);
    }
    if c :| c in wrapped && Grants(c, roleIds) {
      var i :| 0 <= i < |wrapped| && wrapped[i] == c;
      assert custom[i] in custom;
      var k :| 0 <= k < |roles| && userId in ViewerIds(roles[k].viewers) && custom[i] == RoleRef(roles[k].id, roles[k].name);
      assert roles[k].id in roleIds;
    }
  }

  /** `userIsInRole`: some mapped Twitch role or some custom role of the viewer has one of
      the ids asked for; a Twitch role that maps to nothing contributes nothing, and an
      absent list of Twitch roles counts as empty. */
  function UserIsInRole(roles: seq<CustomRole>, userId: string, userTwitchRoles: Option<seq<string>>,
                        roleIdsToCheck: seq<string>, mapTwitchRole: string -> Option<RoleRef>): (b: bool)
    ensures b <==>
      (userTwitchRoles.Some? &&
        exists t :: t in userTwitchRoles.value && mapTwitchRole(t).Some? && mapTwitchRole(t).value.id in roleIdsToCheck) ||
      (exists k :: 0 <= k < |roles| && userId in ViewerIds(roles[k].viewers) && roles[k].id in roleIdsToCheck)
  {
    var twitch := if userTwitchRoles.Some? then userTwitchRoles.value else [];
    var custom := CustomRolesForViewer(roles, userId);
    var mapped := seq(|twitch|, i requires 0 <= i < |twitch| => mapTwitchRole(twitch[i]));
    var wrapped := seq(|custom|, i requires 0 <= i < |custom| => Some(custom[i]));
    AnyGrantsConcat(mapped, wrapped, roleIdsToCheck);
    AnyGrantsMapped(twitch, mapTwitchRole, roleIdsToCheck, mapped);
    AnyGrantsCustom(roles, userId, roleIdsToCheck, wrapped);
    exists c | c in mapped + wrapped :: Grants(c, roleIdsToCheck)
  }
}
