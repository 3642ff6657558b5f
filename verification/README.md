# Custom viewer roles and `hasRoles`, modelled in Dafny

This project models two parts of Firebot, the streamer automation tool:

- **The custom-role store** (`CustomRolesManager`). It keeps user-defined viewer groups in the table `_customRoles`, from role id to `{id, name, viewers}`. Each viewer is a cached `{id, username, displayName}` snapshot. The store's operations are:
  - save a role (create or replace);
  - delete a role;
  - add a viewer, remove a viewer, or clear all viewers;
  - refresh the cached identities from Twitch;
  - migrate legacy roles, whose viewers are bare usernames;
  - answer lookups by name and by viewer, and answer `userIsInRole`.
- **The `hasRoles` replace-variable.** It answers "does this user hold any or all of these role names".

Files:

- `sequences.dfy` (`Sequences`): `FindIndex`, the first index whose element satisfies a predicate, as `findIndex`/`indexOf` behave.
- `text.dfy` (`Text`): ASCII lower-casing and `findIndexIgnoreCase`.
- `role_types.dfy` (`RoleTypes`): the records `Viewer`, `CustomRole`, `LegacyCustomRole`, `TwitchUser` and `RoleRef`.
- `custom_roles.dfy` (`CustomRoles`): the table as a value. It is a sequence of roles in property order, with unique ids. Every update and query is a function with its contract.
- `role_store_properties.dfy` (`RoleStoreProperties`): lemmas relating the operations. They cover idempotence, round trips, uniqueness of viewer ids, and what queries answer after updates.
- `role_sync.dfy` (`RoleSync`): the identity refresh and the legacy migration, as functions with their lemmas.
- `custom_roles_manager.dfy` (`RolesManager`): the class `CustomRolesManager`. Its field `roles` is reassigned by every update, and each method is proved to produce the table its specification function describes. The module also holds the two loops of refresh and migration, as methods.
- `has_roles.dfy` (`HasRoles`): the `hasRoles` evaluator, the lemmas about its count-based "all" rule, and a corrected "all" rule.

External collaborators are parameters of the operations that use them:

| collaborator | how the model receives it |
|---|---|
| `getUsersByIds` | `seq<string> -> seq<TwitchUser>` |
| `getUsersByNames` | `seq<string> -> Option<seq<TwitchUser>>`; `None` is a rejected lookup |
| `getUserByName` | `string -> Option<TwitchUser>` |
| `twitchRoleManager.mapTwitchRole` | `string -> Option<RoleRef>` |
| `roleHelpers.getAllRolesForViewer` | `string -> seq<RoleRef>` |
| the legacy document | `Option<seq<LegacyCustomRole>>`; `None` means no legacy file |

The implementation of `util.findIndexIgnoreCase` is not among the modelled source files. `Text.FindIndexIgnoreCase` models it as "the first index whose lower-cased name equals the lower-cased query, else -1".

Behaviour of the code a caller may not expect:

- Saving a role and then looking it up by name does not always return that role. The lookup returns the first role whose name matches ignoring case, so an earlier role with a clashing name shadows the saved one. `RoleStoreProperties.SavedRoleFoundByName` proves that the saved role is found when no other role's name equals its name ignoring case.
- A role saved with an empty id cannot be deleted, because the delete guard ignores empty ids (`RoleStoreProperties.EmptyIdRoleSurvivesDelete`).
- In the refresh, a returned user that matches no viewer makes `findIndex` give -1. The source then assigns to the array's property `"-1"`, which is not an element. The model leaves the elements unchanged in that case.

## Model

| member | source | states |
|---|---|---|
| `Sequences.FindIndex` | src/backend/roles/custom-roles-manager.ts:122 | returns the first index whose element satisfies the predicate, or -1 exactly when none does |
| `CustomRoles.Lookup` | src/backend/roles/custom-roles-manager.ts:157 | `_customRoles[id]` is present exactly when some role has that id, and is then a stored role with that id |
| `CustomRoles.Assigned` | src/backend/roles/custom-roles-manager.ts:140 | after `_customRoles[role.id] = role` the key maps to `role` and every other key maps to what it did; ids stay unique; an existing key keeps its position and a new key is appended |
| `CustomRoles.Deleted` | src/backend/roles/custom-roles-manager.ts:236-241 | an empty or unknown id changes nothing; otherwise the key is absent afterwards, every other key is unchanged, and exactly that entry is removed with the order of the rest kept |
| `CustomRoles.IndexOfViewer` | src/backend/roles/custom-roles-manager.ts:211 | returns the first index holding the id when the id is a member, and -1 exactly when it is not |
| `CustomRoles.WithViewerAdded` | src/backend/roles/custom-roles-manager.ts:153-173 | no change when the viewer is missing, its id is empty, the role is absent or the id is already a member; otherwise exactly one snapshot is appended to that role's viewers, and every other role and its position are unchanged |
| `CustomRoles.WithViewerRemoved` | src/backend/roles/custom-roles-manager.ts:205-223 | no change for an empty id, an unknown role or a non-member; otherwise exactly the first viewer with that id is spliced out, the order of the rest is kept and other roles are untouched |
| `CustomRoles.WithViewersCleared` | src/backend/roles/custom-roles-manager.ts:225-234 | an unknown role changes nothing; an existing role keeps its id, name and position and has no viewers |
| `CustomRoles.RoleByName` | src/backend/roles/custom-roles-manager.ts:179-183 | returns the first role whose name equals the query ignoring case, and null exactly when no role's name does |
| `CustomRoles.CustomRolesForViewer` | src/backend/roles/custom-roles-manager.ts:185-195 | a `{id, name}` pair is listed exactly when some role with that id and name has the viewer among its viewers; with unique role ids no id is listed twice |
| `CustomRoles.UserIsInRole` | src/backend/roles/custom-roles-manager.ts:197-203 | true exactly when some Twitch role maps to a role with a checked id, or some custom role holding the user has a checked id; unmapped roles and an absent Twitch-role list contribute nothing |
| `Text.Lower` | src/backend/variables/builtin/user/roles/has-roles.ts:48 | lower-casing keeps the length and maps each character, A-Z to a-z |
| `Text.FindIndexIgnoreCase` | src/backend/roles/custom-roles-manager.ts:181 | returns the first index whose name equals the query ignoring case, or -1 exactly when there is none |
| `RoleStoreProperties.AddViewerMakesMember` | src/backend/roles/custom-roles-manager.ts:158-167 | after adding a viewer with an id to an existing role, the viewer is a member of it |
| `RoleStoreProperties.AddViewerIdempotent` | src/backend/roles/custom-roles-manager.ts:159-161 | adding the same viewer twice leaves the table as adding it once |
| `RoleStoreProperties.AddViewerKeepsViewerIdsDistinct` | src/backend/roles/custom-roles-manager.ts:159-167 | if no role holds a viewer id twice before an add, none does after it |
| `RoleStoreProperties.AddThenRemoveRestores` | src/backend/roles/custom-roles-manager.ts:153-223 | removing a viewer just added by a real add restores the table exactly |
| `RoleStoreProperties.RemoveViewerLeavesNonMember` | src/backend/roles/custom-roles-manager.ts:211-217 | with distinct viewer ids, after a removal the id is no longer a member of that role |
| `RoleStoreProperties.RemoveViewerKeepsViewerIdsDistinct` | src/backend/roles/custom-roles-manager.ts:217 | a removal never makes a viewer id appear twice |
| `RoleStoreProperties.RemoveThenAddRestoresMembership` | src/backend/roles/custom-roles-manager.ts:153-223 | removing a viewer and adding it back makes it a member again |
| `RoleStoreProperties.CustomRolesForViewerIsMembership` | src/backend/roles/custom-roles-manager.ts:185-195 | with unique role ids, a role is listed for a viewer exactly when the viewer is a member of it |
| `RoleStoreProperties.CustomRolesForViewerAfterAdd` | src/backend/roles/custom-roles-manager.ts:153-195 | after an add, the viewer's custom roles include that role |
| `RoleStoreProperties.CustomRolesForViewerAfterRemove` | src/backend/roles/custom-roles-manager.ts:185-223 | after a removal (distinct viewer ids), the viewer's custom roles no longer include that role |
| `RoleStoreProperties.SavedRoleFoundByName` | src/backend/roles/custom-roles-manager.ts:135-183 | after saving a role, looking up its name returns it, provided no other role's name equals it ignoring case |
| `RoleStoreProperties.SaveThenDeleteRestores` | src/backend/roles/custom-roles-manager.ts:135-241 | saving a role under a new non-empty id and deleting that id restores the table |
| `RoleStoreProperties.EmptyIdRoleSurvivesDelete` | src/backend/roles/custom-roles-manager.ts:236-239 | a role saved under the empty id is still present after deleting the empty id |
| `RoleStoreProperties.ModeratorMappedToCheckedId` | src/backend/roles/custom-roles-manager.ts:197-203 | `userIsInRole("u1", ["moderator"], ["modRoleId"])` holds when "moderator" maps to that id |
| `RoleStoreProperties.ModeratorMappedElsewhere` | src/backend/roles/custom-roles-manager.ts:197-203 | the same call fails when "moderator" maps to nothing or to another id and no custom role of u1 has that id |
| `RoleSync.UserApplied` | src/backend/roles/custom-roles-manager.ts:122-127 | one returned user overwrites the first viewer with its id by the user's snapshot; every other viewer, the length and the id sequence are unchanged |
| `RoleSync.UsersApplied` | src/backend/roles/custom-roles-manager.ts:121-128 | applying the returned users in order never adds, removes or reorders viewers: the id sequence and length are unchanged |
| `RoleSync.UsersAppliedStep` | src/backend/roles/custom-roles-manager.ts:121-127 | one pass of the refresh loop: applying the users from `n` on is overwriting the first viewer with the id of user `n`, if any, and then applying the rest |
| `RoleSync.UsersAppliedTakesLatest` | src/backend/roles/custom-roles-manager.ts:121-128 | with distinct viewer ids, each viewer becomes the snapshot of the last returned user with its id, and is left as it was if none matched |
| `RoleSync.RoleRefreshed` | src/backend/roles/custom-roles-manager.ts:115-130 | a refreshed role keeps its id, its name and its viewer id sequence |
| `RoleSync.MigratedRole` | src/backend/roles/custom-roles-manager.ts:57-70 | the new role has the legacy id and name and one `{id, username, displayName}` snapshot per returned user, in lookup order |
| `RoleSync.Migrated` | src/backend/roles/custom-roles-manager.ts:54-83 | the migration completes, and the legacy file is deleted, exactly when every username lookup succeeds |
| `RoleSync.MigrationStopsAtFailure` | src/backend/roles/custom-roles-manager.ts:54-82 | when the lookup for legacy role `f` is the first to fail, the table is what migrating the roles before `f` gives, no later role is saved, and the run does not complete |
| `RoleSync.MigrationKeepsUniqueIds` | src/backend/roles/custom-roles-manager.ts:72 | migrating saves through the normal save path, so role ids stay unique |
| `RoleSync.MigrationFrame` | src/backend/roles/custom-roles-manager.ts:54-74 | roles whose id is not migrated are left as they were |
| `RoleSync.MigrationInstallsEveryRole` | src/backend/roles/custom-roles-manager.ts:57-72 | after a completed migration of distinct legacy ids, each legacy role is stored under its id with its name and with viewers in the lookup's order |
| `RoleSync.MigrationExample` | src/backend/roles/custom-roles-manager.ts:57-72 | legacy `{1, VIPs, [alice]}` with alice resolving to u1 migrates to `{1, VIPs, [{u1, alice, Alice}]}` and completes |
| `RolesManager.RefreshViewers` | src/backend/roles/custom-roles-manager.ts:121-128 | the overwrite loop applies the returned users in order and keeps the id sequence |
| `RolesManager.BuildMigratedRole` | src/backend/roles/custom-roles-manager.ts:57-70 | the built role has the legacy id and name and one snapshot per returned user, in lookup order |
| `RolesManager.CustomRolesManager.constructor` | src/backend/roles/custom-roles-manager.ts:31 | the store starts empty and valid |
| `RolesManager.CustomRolesManager.GetCustomRoles` | src/backend/roles/custom-roles-manager.ts:175-177 | lists every stored role once, each stored under its own id |
| `RolesManager.CustomRolesManager.SaveCustomRole` | src/backend/roles/custom-roles-manager.ts:135-151 | a missing role leaves the table unchanged; otherwise the key maps to the role and every other key is unchanged |
| `RolesManager.CustomRolesManager.AddViewerToRole` | src/backend/roles/custom-roles-manager.ts:153-173 | the new table is `WithViewerAdded` of the old one, and ids stay unique |
| `RolesManager.CustomRolesManager.RemoveViewerFromRole` | src/backend/roles/custom-roles-manager.ts:205-223 | the new table is `WithViewerRemoved` of the old one |
| `RolesManager.CustomRolesManager.RemoveAllViewersFromRole` | src/backend/roles/custom-roles-manager.ts:225-234 | the new table is `WithViewersCleared` of the old one |
| `RolesManager.CustomRolesManager.DeleteCustomRole` | src/backend/roles/custom-roles-manager.ts:236-252 | an empty id is ignored; otherwise the key is gone and every other key is unchanged |
| `RolesManager.CustomRolesManager.RefreshCustomRolesUserData` | src/backend/roles/custom-roles-manager.ts:112-133 | every role is refreshed in place and keeps its position, id, name and viewer ids |
| `RolesManager.CustomRolesManager.MigrateLegacyCustomRoles` | src/backend/roles/custom-roles-manager.ts:45-84 | without a legacy file nothing happens; otherwise the roles are migrated in order until a lookup fails, and the legacy file is deleted only if all succeeded |
| `HasRoles.MatchingRoles` | src/backend/variables/builtin/user/roles/has-roles.ts:66 | keeps exactly the held roles whose name is requested, each as often as it is held, so its length is the number of matching held roles |
| `HasRoles.Evaluator` | src/backend/variables/builtin/user/roles/has-roles.ts:35-67 | false for an empty user name, empty mode, no roles, an unknown mode or an unresolved user; "any" is true iff some held role's name is requested (exact match); "all" is true iff the requested count equals the count of matching held roles |
| `HasRoles.ModeIgnoresCase` | src/backend/variables/builtin/user/roles/has-roles.ts:48-51 | two modes that lower-case alike give the same answer |
| `HasRoles.UpperCaseModesAccepted` | src/backend/variables/builtin/user/roles/has-roles.ts:48-49 | "ANY", "All" and "ALL" lower-case to the accepted modes |
| `HasRoles.AllCountMeansEveryName` | src/backend/variables/builtin/user/roles/has-roles.ts:66 | with distinct requested names and distinct held names, the count comparison holds iff every requested name is held |
| `HasRoles.AnyModVipExample` | src/backend/variables/builtin/user/roles/has-roles.ts:22-25 | `any, mod, vip` is true iff the user holds mod or vip |
| `HasRoles.AllModVipExample` | src/backend/variables/builtin/user/roles/has-roles.ts:26-29 | `all, mod, vip` is true iff the user holds mod and vip, when no held name repeats |
| `HasRoles.DuplicateRequestedNameDefeatsAll` | src/backend/variables/builtin/user/roles/has-roles.ts:66 | requesting "mod" twice while holding it once yields false |
| `HasRoles.DuplicateHeldNameDefeatsAll` | src/backend/variables/builtin/user/roles/has-roles.ts:66 | holding two roles named "VIP" makes `all, VIP` false, while one such role makes it true |
| `HasRoles.DuplicateHeldNameGrantsAll` | src/backend/variables/builtin/user/roles/has-roles.ts:66 | holding two roles named "mod" and none named "vip" makes `all, mod, vip` true, while the documented rule says false |
| `HasRoles.EvaluatorIntended` | src/backend/variables/builtin/user/roles/has-roles.ts:26-29 | the documented "all" rule: the same guards, and the same answer as the source in "any" mode |
| `HasRoles.IntendedAllIsMonotone` | src/backend/variables/builtin/user/roles/has-roles.ts:26-29 | under the intended rule, holding more roles never turns "all" from true to false |
| `HasRoles.IntendedAgreesWhenNamesDistinct` | src/backend/variables/builtin/user/roles/has-roles.ts:66 | without repeated names, the intended rule and the source's count rule agree on every input |

## Findings

| source | as written | input that shows it | evidently intended | confidence | as-written member | corrected member |
|---|---|---|---|---|---|---|
| src/backend/variables/builtin/user/roles/has-roles.ts:66 | "all" compares the number of requested names with the number of held roles whose name is requested | the user holds two roles both named "VIP" (role names are not unique); `hasRoles[alice, all, VIP]` is false, while holding one VIP role gives true | true whenever every requested name is held ("Returns true if $user is a mod AND a VIP") | medium, not executed | `HasRoles.DuplicateHeldNameDefeatsAll` | `HasRoles.EvaluatorIntended` |
| src/backend/variables/builtin/user/roles/has-roles.ts:66 | the same count comparison | `hasRoles[alice, all, mod, mod]` while alice holds mod once is false | true, since every requested name is held | low, not executed | `HasRoles.DuplicateRequestedNameDefeatsAll` | `HasRoles.EvaluatorIntended` |
| src/backend/variables/builtin/user/roles/has-roles.ts:66 | the same count comparison | alice holds two roles named "mod" and none named "vip"; `hasRoles[alice, all, mod, vip]` is true because 2 == 2 | false, since alice is not a VIP ("Returns true if $user is a mod AND a VIP") | medium, not executed | `HasRoles.DuplicateHeldNameGrantsAll` | `HasRoles.EvaluatorIntended` |

The first two as-written lemmas also prove that `EvaluatorIntended` answers true on the same input. The third proves that it answers false, so the count rule errs in both directions. The intended rule is proved monotone in the held roles (`HasRoles.IntendedAllIsMonotone`). It agrees with the source whenever no name repeats (`HasRoles.IntendedAgreesWhenNamesDistinct`). `HasRoles.Evaluator` itself stays as written.

## Left out

- The UI channel is left out because it is I/O. This covers the `frontendCommunicator` handlers (custom-roles-manager.ts:33-43) and `triggerUiRefresh` (lines 171, 254-256). The calls `exports.triggerUiRefresh()` at lines 221 and 232 are not modelled either. They run after the role is saved, and they throw: `export =` at line 261 replaces `module.exports`, so `exports` is still the original empty object and `exports.triggerUiRefresh` is undefined. `removeViewerFromRole` and `removeAllViewersFromRole` therefore end in a TypeError after saving, while the model returns normally.
- Persistence through the JSON document store is left out because it is file I/O whose failures are logged and swallowed. This covers `getCustomRolesDb`, `push`, `delete`, the profile path checks and `deletePathInProfile`. The model keeps no durable copy. It returns only whether the legacy document would be deleted.
- `loadCustomRoles` (lines 90-110) is left out as an operation because its own steps are file I/O. It first awaits the legacy migration (line 91). It then reads the roles document and replaces the table only when the read is non-null (lines 100-102). Then it awaits the refresh (line 106), which is skipped when the read throws (lines 97-109). The migration and the refresh are modelled (`MigrateLegacyCustomRoles`, `RefreshCustomRolesUserData`); the read and its null and error cases are not.
- Logging, `async`/`await` and interleaving of overlapping calls are left out. Lookup results are modelled as functions of their argument.
- A rejected `getUsersByNames` is modelled: `None` ends the migration, as `RoleSync.Migrated` states. A rejected `getUsersByIds` (line 119) is not. In the source it ends the refresh loop at line 115: the roles already refreshed stay saved, the rest are not refreshed, and the error reaches the catch of `loadCustomRoles` at line 107. The model's `getUsersByIds`, `getUserByName` and `getAllRolesForViewer` always return a value.
- Roles are values. The source stores the caller's object by reference, so a caller mutating a saved object afterwards would change the table; that aliasing is not modelled.
- JavaScript lists integer-like keys first, in numeric order, in `Object.values`. The table is modelled in insertion order throughout.
- `toLowerCase` is modelled for ASCII letters only. Other Unicode case mappings are not modelled.
- Null arguments are modelled as the empty string only where the source's guard treats them alike: `userId` in `removeViewerFromRole`, the viewer id in `addViewerToRole`, `roleId` in `deleteCustomRole`, and `username` and the mode in `hasRoles`. A null or undefined `roleId` in `addViewerToRole`, `removeViewerFromRole` and `removeAllViewersFromRole` is not guarded: it reads the key "null" or "undefined". Callers of the model pass those key strings for such calls. `respective` and the role names are strings: the template-string conversion of other values is not modelled.
- `_customRoles` is a plain object, and the model treats every id as an ordinary key. Keys inherited from `Object.prototype` are not modelled. For example, `addViewerToRole("toString", v)` finds the inherited function and throws a TypeError when it reads its `viewers`. Saving a role under the id `"__proto__"` replaces the object's prototype instead of adding an entry.
- A viewer passed to `addViewerToRole` is modelled by the three fields the snapshot copies. The other fields of `BasicViewer` are not part of this model.
- In the refresh, the assignment to the non-index property `"-1"` for an unmatched user is not modelled. Only the array elements are.
- In the migration, a failing read of the legacy document is not modelled; only a failing username lookup is.
- `CustomRoles.CustomRolesForViewer`: its contract states membership, `|r| <= |roles|`, and that with unique role ids no id is listed twice. It does not state the order; the order, table order, holds by its definition.
- The `definition` metadata and trigger table of has-roles.ts (lines 8-34) are not modelled. They describe the variable to the UI and have no behaviour.
