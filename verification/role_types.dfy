/** The records the custom-role store keeps and exchanges with its collaborators. */
module RoleTypes {

  datatype Option<+T> = None | Some(value: T)

  /** A cached snapshot of a viewer's identity: the stable id is the join key,
      the username and display name may drift upstream. */
  datatype Viewer = Viewer(id: string, username: string, displayName: string)

  /** A user-defined viewer group, stored under its own id. */
  datatype CustomRole = CustomRole(id: string, name: string, viewers: seq<Viewer>)

  /** The pre-migration shape of a custom role: viewers are bare usernames. */
  datatype LegacyCustomRole = LegacyCustomRole(id: string, name: string, viewers: seq<string>)

  /** A record returned by the Twitch user lookups. */
  datatype TwitchUser = TwitchUser(id: string, name: string, displayName: string)

  /** The `{id, name}` pair by which a role (Twitch or custom) is referred to. */
  datatype RoleRef = RoleRef(id: string, name: string)

  /** `viewers.map(v => v.id)` */
  function ViewerIds(viewers: seq<Viewer>): (ids: seq<string>)
    ensures |ids| == |viewers| && forall i :: 0 <= i < |viewers| ==> ids[i] == viewers[i].id
    ensures forall id :: id in ids <==> exists i :: 0 <= i < |viewers| && viewers[i].id == id
  {
    seq(|viewers|, i requires 0 <= i < |viewers| => viewers[i].id)
  }

  /** The snapshot stored for a Twitch user. */
  function ViewerOf(user: TwitchUser): Viewer
  {
    Viewer(user.id, user.name, user.displayName)
  }

  /** No two viewers of a role share an id. */
  ghost predicate DistinctViewerIds(viewers: seq<Viewer>)
  {
    forall i, j :: 0 <= i < j < |viewers| ==> viewers[i].id != viewers[j].id
  }
}
