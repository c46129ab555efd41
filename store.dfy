/**
 * The four tables (resources, roles, groups, users), the five join tables
 * (role_resources, user_roles, user_resources, group_admins, group_members),
 * the columns of each entity and the errors the operations return.
 */
module Store {
  import opened Wrappers
  import opened Text
  import opened Tables

  type u32 = x: nat | x < 0x1_0000_0000

  /** The columns of a resources row; `resClass` and `resType` are the `class` and `type` columns. */
  datatype ResourceCols = ResourceCols(
    name: string, resClass: string, attr: string,
    resType: u32, parentId: Id, order: u32, status: u32)

  datatype RoleCols = RoleCols(name: string, desc: string, status: u32)

  datatype GroupCols = GroupCols(
    name: string, desc: string, ownerId: Id, status: u32,
    createdAt: nat, updatedAt: nat)

  datatype UserCols = UserCols(
    name: string, password: string, salt: string, ownerId: Id, code: string,
    locked: u32, lockIp: string, createdAt: nat, changedAt: nat)

  /** Go's zero values of the structs, which a lookup returns when no row matches. */
  const ZeroResource := ResourceCols("", "", "", 0, 0, 0, 0)
  const ZeroRole := RoleCols("", "", 0)
  const ZeroGroup := GroupCols("", "", 0, 0, 0, 0)
  const ZeroUser := UserCols("", "", "", 0, "", 0, "", 0, 0)

  /** The columns with a unique index: resources.name, groups.name, groups.owner_id, users.name. */
  function ResourceName(c: ResourceCols): string { c.name }
  function GroupName(c: GroupCols): string { c.name }
  function GroupOwner(c: GroupCols): Id { c.ownerId }
  function UserName(c: UserCols): string { c.name }

  /** A hex MD5 digest: always 32 characters, so never the empty string. */
  type Digest = s: string | |s| == 32 witness "00000000000000000000000000000000"

  /** The errors the core returns; the comments give the source's messages. */
  datatype Error =
    | DuplicateKey           // a unique index rejected the write
    | NilPrimaryKey          // gorm: "primary key can't be nil" on an association of an unsaved row
    | ResourceIdError        // "resource id error!"
    | RoleIdError            // "role id error!"
    | PasswordError          // "password error"
    | GroupIdError           // "groupid error"
    | UserOrResourceIdError  // "user id or resource id error"
    | RoleOrResourceIdError  // "role id or resource id error"
    | NoPermissions          // "no permissions"
    | BadCredentials         // unknown account or wrong password
    | IpRejected             // login from an address other than the pinned one
    | AccountLocked          // the account is locked
    | GroupDisabled          // the account's group is disabled

  /** The database: the tables in key order, their auto-increment counters and the join tables. */
  class Db {
    /** MD5 as hex; treated as an arbitrary function with 32-character results. */
    const hash: string -> Digest

    var resources: seq<Row<ResourceCols>>
    var roles: seq<Row<RoleCols>>
    var groups: seq<Row<GroupCols>>
    var users: seq<Row<UserCols>>
    var nextResource: Id
    var nextRole: Id
    var nextGroup: Id
    var nextUser: Id

    var roleResources: Assoc
    var userRoles: Assoc
    var userResources: Assoc
    var groupAdmins: Assoc
    var groupMembers: Assoc

    /** The table invariants; the join tables are unconstrained, so writing them never disturbs these. */
    ghost predicate Valid()
      reads this`resources, this`roles, this`groups, this`users
      reads this`nextResource, this`nextRole, this`nextGroup, this`nextUser
    {
      && Keyed(resources, nextResource)
      && Keyed(roles, nextRole)
      && Keyed(groups, nextGroup)
      && Keyed(users, nextUser)
      && UniqueBy(resources, ResourceName)
      && UniqueBy(groups, GroupName)
      && UniqueBy(groups, GroupOwner)
      && UniqueBy(users, UserName)
    }

    constructor (hash: string -> Digest)
      ensures Valid() && this.hash == hash
      ensures resources == [] && roles == [] && groups == [] && users == []
      ensures roleResources == map[] && userRoles == map[] && userResources == map[]
      ensures groupAdmins == map[] && groupMembers == map[]
    {
      this.hash := hash;
      resources, roles, groups, users := [], [], [], [];
      nextResource, nextRole, nextGroup, nextUser := 1, 1, 1, 1;
      roleResources, userRoles, userResources := map[], map[], map[];
      groupAdmins, groupMembers := map[], map[];
    }
  }

  // --------------------------------------------------------- identifier lists

  /**
   * The rows an identifier list names, in list order: each token that parses as a
   * decimal `uint64` and whose row exists contributes that row; every other token
   * is dropped without an error.
   */
  function Resolve<C(==)>(t: seq<Row<C>>, tokens: seq<string>): seq<Row<C>>
  {
    if tokens == [] then []
    else
      var last := tokens[|tokens| - 1];
      var id := ParseUint(last);
      Resolve(t, tokens[..|tokens| - 1])
        + (if id.Some? && Find(t, id.value).Some? then [Find(t, id.value).value] else [])
  }

  /** Resolving one more token appends the row it names, if any. */
  lemma ResolveNext<C>(t: seq<Row<C>>, tokens: seq<string>, i: nat)
    requires i < |tokens|
    ensures var id := ParseUint(tokens[i]);
      Resolve(t, tokens[..i + 1]) == Resolve(t, tokens[..i])
        + (if id.Some? && Find(t, id.value).Some? then [Find(t, id.value).value] else [])
  {
    assert tokens[..i + 1][..i] == tokens[..i];
  }

  /** A token names a row of `t` when it parses and the row exists. */
  predicate Names<C(==)>(t: seq<Row<C>>, token: string, x: Row<C>) {
    ParseUint(token).Some? && Find(t, ParseUint(token).value) == Some(x)
  }

  /** Exactly the rows some token names survive; nothing else does. */
  lemma {:induction false} ResolveExactly<C>(t: seq<Row<C>>, tokens: seq<string>, x: Row<C>)
    ensures x in Resolve(t, tokens) <==> exists k :: 0 <= k < |tokens| && Names(t, tokens[k], x)
  {
    if tokens != [] {
      var init := tokens[..|tokens| - 1];
      ResolveExactly(t, init, x);
      if x in Resolve(t, tokens) && x !in Resolve(t, init) {
        assert Names(t, tokens[|tokens| - 1], x);
      }
      if exists k :: 0 <= k < |init| && Names(t, init[k], x) {
        var k :| 0 <= k < |init| && Names(t, init[k], x);
        assert Names(t, tokens[k], x);
      }
    }
  }

  /** The keys an identifier list resolves to: those that some token spells and that are stored. */
  lemma {:induction false} ResolveIds<C>(t: seq<Row<C>>, tokens: seq<string>, id: Id)
    ensures id in Ids(Resolve(t, tokens)) <==>
      Find(t, id).Some? && exists k :: 0 <= k < |tokens| && ParseUint(tokens[k]) == Some(id)
  {
    if tokens != [] {
      var init := tokens[..|tokens| - 1];
      var p := ParseUint(tokens[|tokens| - 1]);
      ResolveIds(t, init, id);
      var before := Resolve(t, init);
      if p.Some? && Find(t, p.value).Some? {
        assert Resolve(t, tokens) == before + [Find(t, p.value).value];
        IdsAppend(before, Find(t, p.value).value);
      } else {
        assert Resolve(t, tokens) == before;
      }
      SpelledSnoc(tokens, init, id);
    }
  }

  /** A list in which no token names a row resolves to nothing (an empty or wholly invalid list). */
  lemma NothingResolves<C>(t: seq<Row<C>>, tokens: seq<string>)
    requires forall k :: 0 <= k < |tokens| ==> ParseUint(tokens[k]).None? || Find(t, ParseUint(tokens[k]).value).None?
    ensures Resolve(t, tokens) == []
  {
    if Resolve(t, tokens) != [] {
      var x := Resolve(t, tokens)[0];
      ResolveExactly(t, tokens, x);
    }
  }
}
