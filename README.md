# upms — a verified model of the permission store

upms is a small user/permission management library written in Go on top of the gorm
ORM. It keeps four tables — resources (a tree through `parent_id`), roles, groups
and users — and five many-to-many join tables: role→resources, user→roles,
user→resources, group→admins and group→members. This project models the four
entity files (`resources.go`, `roles.go`, `groups.go`, `users.go`) against an
abstract in-memory store, and proves what each operation does to it.

Layout, one module per file:

- `wrappers.dfy`: `Option`, `Result` and `Outcome`, a success-or-error result with no value.
- `text.dfy`: the Go string functions that id lists go through. These are
  `strings.TrimSpace`, `strings.Split` on one character, `strings.Fields`,
  `strconv.ParseUint(s, 10, 64)` and `strconv.FormatUint(n, 10)`.
- `tables.dfy`: the storage. A table is a sequence of `Row`s in ascending
  primary-key order (the order `First` and `Find` see) with an auto-increment
  counter. A join table is a map from the owner key to a set of keys.
  - `Find`, `FirstWhere` and `Where` are the queries.
  - `Put` is an UPDATE.
  - `Link`, `Unlink` and `Relink` are gorm's `Append`, `Delete` and `Replace`/`Clear`.
  - The table invariants (`Keyed`, `UniqueBy`) come with the lemmas that UPDATE and INSERT keep them.
- `store.dfy`: the `Db` class, which holds every table, the column datatypes and
  the error type. It also defines `Resolve`, which turns an id list into rows,
  together with its characterisation.
- `resources.dfy`, `roles.dfy`, `groups.dfy`, `users.dfy`: one class per entity (`Resource`, `Role`, `Group`, `User`).
  - Each class has a `row` field (the in-memory struct) and the association slices it loads.
  - Its methods update the struct and the `Db` as the Go methods do.
  - The package-level functions (`NewX`, `LoadX`, `FindUserBy…`, `UserLogin`) are module-level members.

Conventions:
- A lookup that finds nothing returns gorm's zero value, whose key is 0.
- An association write (`Append`, `Replace`, `Delete`, `Clear`) made on a receiver with key 0 is refused with `NilPrimaryKey`. This is gorm's "primary key can't be nil". The association loads (`Find`) on key 0 are covered under "## Left out".
- An UPDATE by a nonzero key that no row has matches nothing: no error, no change, and no unique index is checked.
- An UPDATE through `Model(x)` selects the row by `x`'s key. When that key is 0 (a receiver that a failed lookup returned), gorm adds no key condition, so the UPDATE rewrites every row of the table. If that gives two rows one unique value, the database refuses the whole statement (`DuplicateKey`, no change).
- A write that a unique index (`resources.name`, `groups.name`, `groups.owner_id`, `users.name`) refuses returns `DuplicateKey` and leaves the store unchanged.
- MD5 is an arbitrary function `Db.hash` with 32-character results.
- The clock (`now`), the random salt (`salt`) and the random code suffix (`suffix`) are parameters.

Behaviours modelled as the code has them (some may surprise a reader):

- `User.UnLock` assigns `Locked = 0` in memory but writes `locked = 1` to the store (users.go:41). gorm then copies the written 1 back into the receiver; see "## Left out" and Findings.
- `User.UpdateRoles` resolves role keys, but it replaces the user_resources association, not user_roles (users.go:84). The model links the role keys there; see "## Left out" for what gorm actually writes.
- `User.UpdateLockIp("")` does not clear the stored pin. The update is built from a struct, and gorm skips its zero fields. The in-memory pin is cleared (users.go:125-128).
- `Role.AddResource` appends with no duplicate check (roles.go:40-46). The join-table insert adds no second row, so the grant set is unchanged.
- `CreateUser` enrols the new account in its group twice.
  - The first time is inside `NewUser` (users.go:265-270).
  - The second time is through a freshly loaded group whose member slice is empty (users.go:193-198).
  - The second enrolment changes nothing (`Tables.LinkTwice`).
- The user lists (`UpdateRoles`, `UpdateResource`) are cut by `strings.Fields`. The role list (`Role.UpdateResource`) and the `CreateUser` list are cut at commas.
- `Group.DelAdmin` deletes only an admin that the loaded admin slice lists. `Group.DelMember` always deletes.
- The `nil` check in `UserLogin` (users.go:288) can never be taken, because `FindUserByName` always returns an account.

## Model

| member | source | states |
|---|---|---|
| Text.TrimSpaceShape | roles.go:60 | `TrimSpace` returns a contiguous slice of its input that has no white space at either end, and everything cut off both ends is white space |
| Text.TrimSpaceKeepsNonSpace | roles.go:60 | `TrimSpace` removes white space only: the non-space characters survive, in order |
| Text.Split | roles.go:62 | `strings.Split` yields at least one piece, and no piece contains the separator |
| Text.JoinSplit | roles.go:62 | joining the pieces with the separator gives back the original string |
| Text.SplitFirst | users.go:190 | the first piece is exactly the text before the first separator |
| Text.Fields | users.go:72 | every field of `strings.Fields` is non-empty and has no white space |
| Text.FieldsOfSpaced | users.go:72 | for words separated by non-empty runs of white space (with optional white space at the ends), `Fields` returns exactly those words, none split and none merged |
| Text.FieldsSpaced | users.go:72 | every string is its fields interleaved with runs of white space, every inner run non-empty, so each field is a maximal non-space run |
| Text.FieldsKeepEveryNonSpace | users.go:72 | the fields, glued back together, are exactly the non-space characters of the input |
| Text.ParseUintRejects | roles.go:64-67 | `ParseUint` accepts a token exactly when it is one or more decimal digits whose value is below 2^64, and then returns that value; it rejects the empty token, any token with a non-digit (a sign, a space) and any value of 2^64 or more |
| Text.ParseFormatRoundTrip | users.go:190 | parsing what `FormatUint` printed gives back the number |
| Tables.Find | resources.go:89-93 | `Where("id = ?").First` returns a stored row with that key, or nothing exactly when no row has the key |
| Tables.FirstWhere | users.go:274-278 | returns the first row in key order that matches, or nothing exactly when no row matches |
| Tables.Where | resources.go:95-99 | `Find` with a condition returns stored rows that match, and every stored row that matches |
| Tables.Put | resources.go:32-35 | an UPDATE by key replaces the row with that key and leaves every other row and the row order unchanged |
| Tables.Link | roles.go:40-46 | `Append` adds the keys to the owner's links and touches no other owner |
| Tables.Unlink | roles.go:48-54 | `Delete` removes the keys from the owner's links and touches no other owner |
| Tables.Relink | roles.go:60-76 | `Replace` makes the owner's links exactly the given set and touches no other owner |
| Tables.LinkTwice | users.go:193-198 | appending the same links a second time changes nothing |
| Tables.KeyedInsert | resources.go:28 | an INSERT under the auto-increment counter keeps keys positive, ascending and below the counter |
| Tables.KeyedPut | resources.go:32-35 | an UPDATE keeps the keys and their order |
| Tables.UniquePut | resources.go:5 | an UPDATE that gives no other row the same unique column keeps the unique index |
| Tables.UniqueInsert | resources.go:5 | an INSERT of a value no row holds keeps the unique index |
| Tables.KeysDistinct | resources.go:4 | two rows with the same primary key are the same row |
| Tables.FindEvery | resources.go:57-60 | after a key-0 UPDATE, each stored key still finds its row, now with the write applied |
| Tables.KeyedEvery | resources.go:57-60 | a key-0 UPDATE keeps the keys and their order |
| Tables.UniqueEvery | resources.go:5 | a key-0 UPDATE that leaves a unique column alone keeps that index |
| Tables.EveryCollides | resources.go:5 | a key-0 UPDATE that sets a unique column on two or more rows breaks that index |
| Tables.PutLast | users.go:189-192 | saving the newest row replaces just the last row of the table |
| Store.ResolveExactly | roles.go:60-76 | an id list resolves to exactly the rows that some token names: it parses as a `uint64` and that row exists |
| Store.ResolveIds | roles.go:63-73 | a key is resolved exactly when it is stored and some token spells it |
| Store.NothingResolves | roles.go:62-74 | a list in which no token parses or resolves yields no rows |
| Resources.WrittenChangesOnlyNamed | resources.go:66-68 | `Update(map)` changes the named columns of the one row with that key, or of every row when the receiver's key is 0; every other column and row is unchanged |
| Resources.ZeroKeyRenameCollides | resources.go:32-35 | renaming through a key-0 receiver gives two or more resources one name, which the unique index refuses |
| Resources.UnstoredKeyWritesNothing | resources.go:32-35 | an UPDATE by a nonzero key that no resource has raises no conflict and changes nothing |
| Resources.WrittenKeepsValid | resources.go:66-68 | an update that takes no other resource's name keeps the keys and the unique name index |
| Resources.Children | resources.go:86 | the loaded children are exactly the stored resources whose parent is this one |
| Resources.Orphaned | resources.go:78-80 | clearing the children sets their `parent_id` to 0, removes no row, and keeps every key and name |
| Resources.OrphanedKeepsValid | resources.go:78-80 | clearing the children keeps the table valid |
| Resources.Resource.Update | resources.go:66-68 | a name that another resource holds, written to a stored row, is refused with `DuplicateKey` and no change; otherwise the named columns are written (a key no row has changes nothing) |
| Resources.Resource.UpdateName | resources.go:32-35 | the name is set in memory; a stored row takes it exactly when no other resource holds it, else `DuplicateKey` with no change; a key no row has is no error and no change |
| Resources.Resource.UpdateClass | resources.go:37-40 | sets only the class, in memory and in the stored row |
| Resources.Resource.UpdateAttr | resources.go:42-45 | sets only the attr, in memory and in the stored row |
| Resources.Resource.UpdateType | resources.go:47-50 | sets only the type, in memory and in the stored row |
| Resources.Resource.UpdateOrder | resources.go:52-55 | sets only the order, in memory and in the stored row |
| Resources.Resource.UpdateStatus | resources.go:57-60 | sets only the status, in memory and in the stored row |
| Resources.Resource.AddSubresource | resources.go:70-72 | the child's in-memory row, with `parent_id` set to this key, is saved: a child with key 0 is inserted under the next key, a stored child is overwritten, a name another resource holds is `DuplicateKey` with no change; a receiver with key 0 is refused |
| Resources.Resource.DelSubresource | resources.go:74-76 | a stored child of this resource is detached (`parent_id` 0), nothing else changes, and no row is removed |
| Resources.Resource.ClearSubresource | resources.go:78-80 | every child is detached; no resource row is removed |
| Resources.Resource.LoadSubresource | resources.go:82-87 | afterwards the child slice is never nil; it holds exactly the children, and is empty when there are none |
| Resources.NewResource | resources.go:19-30 | stores exactly the seven arguments under the next key; a taken name adds no row and leaves key 0 |
| Resources.LoadResource | resources.go:89-93 | the row with that key, or the zero resource (key 0) exactly when there is none |
| Resources.LoadResources | resources.go:95-99 | exactly the resources with status 0 |
| Roles.CsvGrantsExactly | roles.go:60-76 | a resource is granted by the list exactly when it is stored and some trimmed, comma-separated token spells its key |
| Roles.NoValidTokenNoGrants | roles.go:60-76 | a list with no valid token leaves the role with no grants |
| Roles.EmptyListNoGrants | roles.go:60-76 | the empty list (one empty token) clears the grants |
| Roles.ReplaceIdempotent | roles.go:60-76 | replacing with the same list twice gives the grants of replacing once |
| Roles.Role.UpdateName | roles.go:25-28 | sets only the name, in memory and in the stored row |
| Roles.Role.UpdateDesc | roles.go:30-33 | sets only the description, in memory and in the stored row |
| Roles.Role.UpdateStatus | roles.go:35-38 | sets only the status, in memory and in the stored row |
| Roles.Role.AddResource | roles.go:40-46 | an unknown resource is `ResourceIdError` with no change; otherwise the resource is linked (no duplicate check) |
| Roles.Role.DelResource | roles.go:48-54 | an unknown resource is `ResourceIdError` with no change; otherwise that link is removed |
| Roles.Role.ClearResource | roles.go:56-58 | the grant set becomes empty; no resource row changes |
| Roles.Role.UpdateResource | roles.go:60-76 | the loop's list is the resolved list, and the grant set becomes exactly `CsvGrants` |
| Roles.Role.LoadResource | roles.go:78-80 | the loaded grants are exactly the linked, stored resources |
| Roles.LoadRole | roles.go:82-86 | the role with that key, or the zero role (key 0) exactly when there is none |
| Roles.LoadRoles | roles.go:88-92 | exactly the roles with status 0 |
| Roles.NewRole | roles.go:94-104 | stores name, description and status under the next key, and replaces the grants only when the list is not empty |
| Groups.ZeroKeyRenameCollides | groups.go:39-42 | renaming through a key-0 receiver gives two or more groups one name, which the unique index refuses |
| Groups.UnstoredKeyWritesNothing | groups.go:39-42 | an UPDATE by a nonzero key that no group has raises no conflict and changes nothing |
| Groups.WrittenKeepsValid | groups.go:39-52 | an update that takes no other group's name keeps the keys and both unique indexes (name and owner) |
| Groups.Group.UpdateName | groups.go:39-42 | sets the name and `updated_at` and nothing else; a name another group holds, written to a stored group, is `DuplicateKey` with no change; a key no group has is no error and no change |
| Groups.Group.UpdateDesc | groups.go:44-47 | sets the description and `updated_at` and nothing else |
| Groups.Group.UpdateStatus | groups.go:49-52 | sets the status and `updated_at` and nothing else |
| Groups.Group.AddAdmin | groups.go:54-61 | a user listed in the loaded admin slice changes nothing; otherwise the user is linked as an admin |
| Groups.Group.DelAdmin | groups.go:63-70 | the admin link is removed only when the loaded slice lists the user; otherwise nothing changes |
| Groups.Group.LoadAdmin | groups.go:72-74 | the loaded admins are exactly the linked, stored users |
| Groups.Group.AddMember | groups.go:76-83 | a user listed in the loaded member slice changes nothing; otherwise the user is linked as a member |
| Groups.Group.DelMember | groups.go:85-87 | the member link is removed whatever the loaded slice holds |
| Groups.Group.LoadMembers | groups.go:89-91 | the loaded members are exactly the linked, stored users |
| Groups.NewGroup | groups.go:25-33 | stores name, description and owner under the next key; a taken name or owner adds no group and leaves key 0 |
| Groups.LoadGroupById | groups.go:93-97 | the group with that key, or the zero group (key 0, status 0) exactly when there is none |
| Groups.LoadGroupByMemberId | groups.go:99-103 | the lowest-keyed group that lists the user as a member, or the zero group exactly when none does |
| Groups.LoadGroupByAdminId | groups.go:105-109 | exactly the groups that list the user as an admin |
| Groups.LoadGroupByOwnerId | groups.go:111-115 | exactly that owner's groups with status 0 |
| Groups.LoadGroups | groups.go:117-121 | exactly the groups with status 0 |
| Users.PutKeepsValid | users.go:31-33 | overwriting an account with a name no other account holds keeps the table valid |
| Users.FieldGrantsExactly | users.go:107-123 | a key is granted by a whitespace-separated list exactly when it is stored and some field spells it |
| Users.BlankListNoGrants | users.go:107-123 | a blank list clears every grant |
| Users.GrantedExactly | users.go:173-188 | `CreateUser` hands on a role exactly when it is listed, parses, is one of the creator's own roles and is stored |
| Users.GrantedWithinCreator | users.go:174-188 | a creator hands on only roles it holds itself |
| Users.NoRolesNoneGranted | users.go:174-188 | a creator with no roles hands on none |
| Users.GrantedAreStored | users.go:176-188 | every role handed on is a stored role |
| Users.LoginCodeNamesAccount | users.go:189-192 | the login code given with roles starts with the account key: its first `_` piece parses back to that key |
| Users.WrittenFind | users.go:125-137 | after an update of an account, the stored row holds its old columns with the patch applied |
| Users.ZeroKeyLockLocksEveryAccount | users.go:44-47 | `Lock` on the zero account, which a failed lookup returns, locks every stored account |
| Users.UnLockStoresLocked | users.go:39-42 | as written, `UnLock` leaves the stored account locked (`locked = 1`) |
| Users.UnLockIntendedStoresUnlocked | users.go:39-42 | the corrected write leaves the stored account unlocked (`locked = 0`) |
| Users.User.Save | users.go:31-33 | overwrites the stored row and links the loaded roles and resources; a name another account holds is `DuplicateKey` with no change |
| Users.User.SaveRow | users.go:31-33 | the row part of `Save`: overwrite the row, unless another account holds the name |
| Users.User.LinkGrants | users.go:31-33 | the association part of `Save`: link every loaded role and resource |
| Users.User.IsLocked | users.go:35-37 | true exactly when the flag is 1 |
| Users.User.UnLock | users.go:39-42 | assigns `Locked = 0` in memory, which gorm overwrites with the written 1, and writes `locked = 1` and the time to the store |
| Users.User.UnLockIntended | users.go:39-42 | clears the flag in memory and in the store |
| Users.User.Lock | users.go:44-47 | sets the flag to 1 in memory and in the store, and stores the time |
| Users.User.AddRole | users.go:49-55 | an unknown role is `RoleIdError` with no change; otherwise the role is linked |
| Users.User.DelRole | users.go:57-63 | an unknown role is `RoleIdError` with no change; otherwise that link is removed |
| Users.User.LoadRole | users.go:65-67 | the loaded roles are exactly the linked, stored roles |
| Users.User.UpdateRoles | users.go:69-85 | at the association level, the resource grants (not the role grants) become exactly the role keys the whitespace-separated list resolves |
| Users.User.AddResource | users.go:87-93 | an unknown resource is `ResourceIdError` with no change; otherwise the resource is linked |
| Users.User.DelResource | users.go:95-101 | an unknown resource is `ResourceIdError` with no change; otherwise that link is removed |
| Users.User.LoadResource | users.go:103-105 | the loaded resources are exactly the linked, stored resources |
| Users.User.UpdateResource | users.go:107-123 | the resource grants become exactly the resources the whitespace-separated list resolves |
| Users.User.UpdateLockIp | users.go:125-128 | pins the address in memory; in the store, an empty address and a zero time are not written |
| Users.User.UpdatePassword | users.go:130-137 | succeeds exactly when the old password checks; it installs the new salt and digest, after which the new password checks; otherwise `PasswordError` with no change |
| Users.User.CheckPassword | users.go:139-144 | true exactly when the digest of the attempt plus the salt is the stored digest |
| Users.User.GetMyRoleIds | users.go:146-152 | the keys of the map are exactly the keys of the loaded roles, each mapped to 1 |
| Users.User.GetMyResourceIds | users.go:154-160 | the keys of the map are exactly the keys of the loaded resources, each mapped to 1 |
| Users.User.Provision | users.go:261-270 | applies a non-blank role list through `UpdateRoles`, then joins an existing group |
| Users.User.CreateUser | users.go:162-200 | see below |
| Users.User.Open | users.go:167-199 | `CreateUser` past its group check, for a creator holding the roles `mine` |
| Users.User.Complete | users.go:173-198 | the roles are taken, then the second group join changes nothing |
| Users.User.TakeRoles | users.go:173-192 | the account gets `Granted` roles and, when any, a login code that is saved with its role links |
| Users.User.PickRoles | users.go:173-188 | the loop's list is exactly the listed roles the creator holds that are stored |
| Users.User.UpdateResourceForUser | users.go:202-215 | see below |
| Users.User.CreateGroup | users.go:217-222 | only a top-level account creates a group, which it owns |
| Users.User.CreateRole | users.go:224-229 | only a top-level account creates a role, and the new role has no grants |
| Users.User.UpdateResourceForRole | users.go:231-244 | see below |
| Users.User.CreateResource | users.go:246-251 | only a top-level account creates a resource, with exactly the given columns |
| Users.Insert | users.go:256-260 | INSERT under the next key, refused with `DuplicateKey` and no change when the name is taken |
| Users.Enrol | users.go:265-270 | a group that exists gains the account as a member; otherwise nothing changes |
| Users.NewUser | users.go:253-272 | stores name, salted digest, salt, owner, pinned address and time; a taken name is `DuplicateKey` with no change; a non-blank list goes through `UpdateRoles`; an existing group gains the member |
| Users.NewUserNoRoles | users.go:167 | `NewUser` with the empty role list, as `CreateUser` calls it, changes no grant |
| Users.FindUserById | users.go:280-284 | the account with that key, or the zero account exactly when there is none |
| Users.FindUserByName | users.go:274-278 | an account with that name, or the zero account exactly when no account has it |
| Users.UserLogin | users.go:286-306 | a success is a stored account with that name that passes every check; a failure is one of the four login errors |
| Users.NamedAccount | users.go:274-278 | names are unique, so the lookup returns the one stored account with that name |
| Users.LoginExactly | users.go:286-306 | login succeeds exactly when a stored account has that name, its password checks, the address is allowed, it is not locked and its group is enabled |
| Users.LoginUnknownName | users.go:287-293 | an unknown name is refused as bad credentials, since no digest is the empty string |
| Users.LoginBadCredentials | users.go:291-293 | bad credentials exactly when no stored account with that name has that password |
| Users.LoginOrder | users.go:294-303 | once the password checks, the error is the pinned address, then the lock, then the group status, each exactly when the earlier checks pass and it fails |
| Users.UnpinnedAnyIp | users.go:294-296 | an account with no pinned address gets the same answer from every address |
| Users.UngroupedNotDisabled | users.go:300-303 | an account in no group is never refused for its group |

`Users.User.CreateUser` states the following:
- `GroupIdError` exactly when the creator is not top-level and names group 0.
- `DuplicateKey` exactly when the name is taken.
- On either error, nothing changes.
- On success:
  - the account is stored under the next key, with the salted digest and the creator as owner;
  - its roles are exactly `Granted`: the listed roles that the creator holds and that are stored;
  - its login code is `<key>_<now>_<suffix>` exactly when a role was granted, and empty otherwise;
  - the role links are stored;
  - an existing group gains the account as a member;
  - the resource grants are untouched.

`Users.User.UpdateResourceForUser` and `Users.User.UpdateResourceForRole` state the following:
- A creator that is not top-level gets `NoPermissions`.
- A zero key, an empty list or an unknown target gives the id error, with no change.
- Otherwise the target's grants become exactly the resources the list names.

## Left out

- db.go (the gorm handle, the MySQL connection, debug mode) and the `Init*` functions that run schema migrations. They are I/O plumbing.
- utils.go is not part of this model. MD5 is the arbitrary function `Db.hash` with 32-character results. Base64 is not used by the core. The random salt and code suffix are parameters.
- The clock: every timestamp is a parameter `now`, and nothing is proved about it.
- Logging calls (users.go:169, users.go:304).
- `Resource.Save`, `Role.Save` and `Group.Save`. These are whole-row saves that the core never calls. `User.Save` is modelled, but only its overwrite path: the core calls it only on an account already stored.
- gorm v1 copies the written columns back into the receiver after `Model(x).Updates(...)`. The model keeps the in-memory struct as the Go code assigns it.
- Users.User.UnLock: after the call, Go's receiver has `Locked = 1`, because gorm copies the written `locked = 1` back into it, so `IsLocked()` is true. The model keeps the assigned 0, and its `!IsLocked()` is about the assignment, not the receiver gorm leaves.
- Strings are sequences of Unicode code points, while Go strings are bytes. Names are compared exactly, while MySQL's default collation compares them without regard to case (and trailing spaces). That affects the unique name indexes and `FindUserByName`.
- Resources.Resource.AddSubresource, Resources.Resource.DelSubresource, Resources.Resource.ClearSubresource, Resources.Resource.LoadSubresource: these model the has-many relation over `parent_id` that the `SubResources` tag intends, not what gorm v1 does with the tag as written. The tag at resources.go:12 lacks its quotes, so gorm reads no `foreign_key` from it, looks for a `ResourceId` field that `Resource` does not have, and sets up no relation. `Association("SubResources")` is then an invalid association: Add, Del and Clear return that error and change nothing, and Load crashes on every receiver. Even with a valid tag, gorm's has-many Delete and Clear would write `parent_id = NULL` into the NOT NULL column; the model writes 0.
- Resources.Resource.DelSubresource: detaches to `parent_id` 0, the intended relation's effect. As written it is gorm's invalid-association error with no change, and with a valid tag a NULL write (see the line above).
- Resources.Resource.ClearSubresource: orphans the children with `parent_id` 0, the intended relation's effect. As written it is gorm's invalid-association error with no change, and with a valid tag a NULL write (see above).
- The association operations do not update the receiver's loaded slices. With the intended relation, `AddSubresource` would also append the child to the loaded `SubResources` and save every loaded child again; the model saves only the new child.
- Resources.Resource.AddSubresource: with the intended relation, a child whose nonzero key is not stored would be created under that key (`FirstOrCreate`); the model leaves the table unchanged.
- `Append` on a many-to-many association does not save the appended row itself. `Group.AddAdmin` and `Group.AddMember` take a user row from the caller: gorm would first INSERT a user whose key is 0, and the model links key 0 instead. The other appends pass rows just loaded by key, so their key is never 0.
- Auto-increment keys are unbounded. MySQL's refused insert, which consumes a key, is not modelled: a refused insert leaves the counter unchanged.
- Resources.Resource.LoadSubresource, Roles.Role.LoadResource, Groups.Group.LoadAdmin, Groups.Group.LoadMembers, Users.User.LoadRole and Users.User.LoadResource: on a receiver with key 0, gorm v1's `Association(...).Find` does not check the association's error and the Go code crashes (a nil dereference). The model returns `NilPrimaryKey` with nothing loaded instead, because a crash has no value to model.
- Users.User.UpdateRoles: gorm v1 picks the join columns from the type of the values passed, so `Association("Resources").Replace` with role values writes no `resource_id`. It only deletes the account's user_resources rows, and the resource grants end up empty. The model states the association-level effect instead: the resource grants become the resolved role keys.
- Concurrency and transactions: each call is one sequential step on the store.
- Users.User.UpdatePassword: states that the new password checks afterwards, but not that the old one stops checking. With an arbitrary hash function, the two digests may coincide.
- Users.User.Open, Users.User.Complete, Users.User.TakeRoles, Users.User.PickRoles, Users.NewUserNoRoles and Users.User.Provision are steps of `CreateUser` and `NewUser`, split out so that each proof stays small.
- Map keys are not typed beyond Dafny's `string` and `nat`. The `Update(map)` argument is the `ResourcePatch` datatype, a closed record of the seven columns, so a map naming an unknown column is not modelled.

## Findings

| source | as written | input that shows it | evidently intended | confidence | as-written member | corrected member |
|---|---|---|---|---|---|---|
| users.go:39-42 | `UnLock` writes `locked = 1` to the store, the same as `Lock` | any stored account: after `UnLock` its stored flag is 1, so the next `UserLogin` still refuses it with `AccountLocked` | write `locked = 0` | high; not executed | Users.UnLockStoresLocked | Users.User.UnLockIntended |
