/**
 * Users: accounts with a salted password digest, a lock flag, an optional pinned
 * login address, direct role and resource grants (the user_roles and
 * user_resources join tables), and the provisioning a top-level account
 * (owner key 0) may do for the accounts, groups, roles and resources below it.
 */
module Users {
  import opened Wrappers
  import opened Text
  import opened Tables
  import opened Store
  import Resources
  import Roles
  import Groups

  /** The columns one `Model(u).Updates(...)` call names; the name column is never among them. */
  datatype UserPatch = UserPatch(
    password: Option<string>, salt: Option<string>, locked: Option<u32>,
    lockIp: Option<string>, changedAt: Option<nat>)

  const Untouched := UserPatch(None, None, None, None, None)

  function Patched(c: UserCols, p: UserPatch): UserCols
  {
    c.(password := if p.password.Some? then p.password.value else c.password,
       salt := if p.salt.Some? then p.salt.value else c.salt,
       locked := if p.locked.Some? then p.locked.value else c.locked,
       lockIp := if p.lockIp.Some? then p.lockIp.value else c.lockIp,
       changedAt := if p.changedAt.Some? then p.changedAt.value else c.changedAt)
  }

  /**
   * The users table after the UPDATE: the row keyed `id`, if stored, takes the named
   * columns. A receiver with key 0 adds no key condition, so every row takes them.
   */
  function Written(t: seq<Row<UserCols>>, id: Id, p: UserPatch): seq<Row<UserCols>>
  {
    if id == 0 then Every(t, (c: UserCols) => Patched(c, p))
    else
      match Find(t, id)
      case None => t
      case Some(x) => Put(t, id, Patched(x.cols, p))
  }

  /** After the UPDATE, the stored row keyed `id` holds its old columns with the patch applied. */
  lemma WrittenFind(t: seq<Row<UserCols>>, id: Id, p: UserPatch)
    requires Find(t, id).Some?
    ensures Find(Written(t, id, p), id) == Some(Row(id, Patched(Find(t, id).value.cols, p)))
  {
    if id == 0 {
      FindEvery(t, (c: UserCols) => Patched(c, p), id);
      return;
    }
    var c := Patched(Find(t, id).value.cols, p);
    var r := Put(t, id, c);
    var j :| 0 <= j < |t| && t[j] == Find(t, id).value;
    assert r[j] == Row(id, c);
    var f := Find(r, id).value;
    var k :| 0 <= k < |r| && r[k] == f;
    assert t[k].id == id;
  }

  /**
   * `UnLock` as written stores `locked = 1`: a stored account is locked in the
   * store after it, whatever its flag was before.
   */
  lemma UnLockStoresLocked(t: seq<Row<UserCols>>, id: Id, now: nat)
    requires Find(t, id).Some?
    ensures Find(Written(t, id, Untouched.(locked := Some(1), changedAt := Some(now))), id).value.cols.locked == 1
  {
    WrittenFind(t, id, Untouched.(locked := Some(1), changedAt := Some(now)));
  }

  /** The corrected `UnLock` stores `locked = 0`, so the stored account is unlocked after it. */
  lemma UnLockIntendedStoresUnlocked(t: seq<Row<UserCols>>, id: Id, now: nat)
    requires Find(t, id).Some?
    ensures Find(Written(t, id, Untouched.(locked := Some(0), changedAt := Some(now))), id).value.cols.locked == 0
  {
    WrittenFind(t, id, Untouched.(locked := Some(0), changedAt := Some(now)));
  }

  /**
   * `Lock` on the zero account (the result of `FindUserByName` for an unknown name)
   * has no key to select by, so it locks every account in the store.
   */
  lemma ZeroKeyLockLocksEveryAccount(t: seq<Row<UserCols>>, now: nat)
    ensures var w := Written(t, 0, Untouched.(locked := Some(1), changedAt := Some(now)));
      |w| == |t| && forall i :: 0 <= i < |t| ==> w[i].id == t[i].id && w[i].cols.locked == 1
  {
  }

  /** A patch never renames, so it cannot break the unique name index. */
  lemma WrittenKeepsValid(db: Db, id: Id, p: UserPatch)
    requires db.Valid()
    ensures Keyed(Written(db.users, id, p), db.nextUser)
    ensures UniqueBy(Written(db.users, id, p), UserName)
  {
    var t := db.users;
    if id == 0 {
      KeyedEvery(t, db.nextUser, (c: UserCols) => Patched(c, p));
      UniqueEvery(t, UserName, (c: UserCols) => Patched(c, p));
      return;
    }
    match Find(t, id)
    case None =>
    case Some(x) =>
      KeyedPut(t, db.nextUser, id, Patched(x.cols, p));
      forall i | 0 <= i < |t| && t[i].id != id
        ensures UserName(t[i].cols) != UserName(Patched(x.cols, p))
      {
        var j :| 0 <= j < |t| && t[j] == x;
        ColsDistinct(t, UserName, i, j);
      }
      UniquePut(t, db.nextUser, UserName, id, Patched(x.cols, p));
  }

  /** An overwrite whose name no other account holds keeps the keys and the unique name index. */
  lemma PutKeepsValid(db: Db, id: Id, c: UserCols)
    requires db.Valid() && !Taken(db.users, UserName, c.name, id)
    ensures Keyed(Put(db.users, id, c), db.nextUser)
    ensures UniqueBy(Put(db.users, id, c), UserName)
  {
    KeyedPut(db.users, db.nextUser, id, c);
    UniquePut(db.users, db.nextUser, UserName, id, c);
  }

  /** `CheckPassword`: the digest of the attempt followed by the salt is the stored digest. */
  predicate PasswordOk(hash: string -> Digest, c: UserCols, passwd: string)
  {
    hash(passwd + c.salt) == c.password
  }

  /** The login address is acceptable: no address is pinned, or it is the pinned one. */
  predicate FromPinnedIp(c: UserCols, ip: string)
  {
    c.lockIp == "" || c.lockIp == ip
  }

  /** The tokens of a whitespace-separated id list: trimmed, then cut at runs of white space. */
  function FieldTokens(s: string): seq<string>
  {
    Fields(TrimSpace(s))
  }

  /** The grant set a whitespace-separated id list installs: the rows of `t` it names. */
  function FieldGrants<C(==)>(t: seq<Row<C>>, ids: string): set<Id>
  {
    Ids(Resolve(t, FieldTokens(ids)))
  }

  /** A key is granted by the list exactly when it is stored and one whitespace-separated token spells it. */
  lemma FieldGrantsExactly<C>(t: seq<Row<C>>, ids: string, id: Id)
    ensures id in FieldGrants(t, ids) <==>
      Find(t, id).Some? &&
      exists k :: 0 <= k < |FieldTokens(ids)| && ParseUint(FieldTokens(ids)[k]) == Some(id)
  {
    ResolveIds(t, FieldTokens(ids), id);
  }

  /** A blank list has no tokens, so replacing with it clears every grant. */
  lemma BlankListNoGrants<C>(t: seq<Row<C>>, ids: string)
    requires TrimSpace(ids) == ""
    ensures FieldGrants(t, ids) == {}
  {
    assert FieldTokens(ids) == [];
  }

  /** A code handed out with roles starts with the account's key: its first `_`-separated piece parses back to it. */
  lemma LoginCodeNamesAccount(id: Id, code: string, granted: seq<Row<RoleCols>>, now: nat, suffix: string)
    requires granted != [] && id < Uint64Bound
    ensures ParseUint(Split(LoginCode(id, code, granted, now, suffix), '_')[0]) == Some(id)
  {
    var d := Decimal(id);
    var rest := Decimal(now) + "_" + suffix;
    assert LoginCode(id, code, granted, now, suffix) == d + ['_'] + rest;
    assert !IsDigit('_');
    SplitFirst(d, '_', rest);
    ParseFormatRoundTrip(id);
  }

  /** The membership after enrolling `member` in group `groupid`: a group that is not stored gains no one. */
  function Joined(groups: seq<Row<GroupCols>>, members: Assoc, groupid: Id, member: Id): Assoc
  {
    if Find(groups, groupid).Some? then Link(members, groupid, {member}) else members
  }

  /** The code column `CreateUser` leaves: `<key>_<now>_<suffix>` once any role was granted, else as it was. */
  function LoginCode(id: Id, code: string, granted: seq<Row<RoleCols>>, now: nat, suffix: string): string
  {
    if granted == [] then code else Decimal(id) + "_" + Decimal(now) + "_" + suffix
  }

  /**
   * The roles `CreateUser` hands to the new account, in list order: each token
   * that parses, is one of the creator's own role keys `mine`, and is a stored role.
   */
  function Granted(roles: seq<Row<RoleCols>>, mine: set<Id>, tokens: seq<string>): seq<Row<RoleCols>>
  {
    if tokens == [] then []
    else
      var id := ParseUint(tokens[|tokens| - 1]);
      Granted(roles, mine, tokens[..|tokens| - 1])
        + (if id.Some? && id.value in mine && Find(roles, id.value).Some?
           then [Find(roles, id.value).value] else [])
  }

  /** A role is handed on exactly when the creator holds it, it is stored and some token spells it. */
  lemma {:induction false} GrantedExactly(roles: seq<Row<RoleCols>>, mine: set<Id>, tokens: seq<string>, id: Id)
    ensures id in Ids(Granted(roles, mine, tokens)) <==>
      id in mine && Find(roles, id).Some? &&
      exists k :: 0 <= k < |tokens| && ParseUint(tokens[k]) == Some(id)
  {
    if tokens != [] {
      var init := tokens[..|tokens| - 1];
      var p := ParseUint(tokens[|tokens| - 1]);
      GrantedExactly(roles, mine, init, id);
      var before := Granted(roles, mine, init);
      if p.Some? && p.value in mine && Find(roles, p.value).Some? {
        assert Granted(roles, mine, tokens) == before + [Find(roles, p.value).value];
        IdsAppend(before, Find(roles, p.value).value);
      } else {
        assert Granted(roles, mine, tokens) == before;
      }
      SpelledSnoc(tokens, init, id);
    }
  }

  /** A creator can hand on only roles it holds itself. */
  lemma GrantedWithinCreator(roles: seq<Row<RoleCols>>, mine: set<Id>, tokens: seq<string>)
    ensures Ids(Granted(roles, mine, tokens)) <= mine
  {
    forall id | id in Ids(Granted(roles, mine, tokens)) ensures id in mine {
      GrantedExactly(roles, mine, tokens, id);
    }
  }

  /** A creator that holds no role hands on none, whatever the list says. */
  lemma {:induction false} NoRolesNoneGranted(roles: seq<Row<RoleCols>>, tokens: seq<string>)
    ensures Granted(roles, {}, tokens) == []
  {
    if tokens != [] {
      NoRolesNoneGranted(roles, tokens[..|tokens| - 1]);
    }
  }

  /** Every row handed on is a stored role. */
  lemma {:induction false} GrantedAreStored(roles: seq<Row<RoleCols>>, mine: set<Id>, tokens: seq<string>)
    ensures forall i :: 0 <= i < |Granted(roles, mine, tokens)| ==> Granted(roles, mine, tokens)[i] in roles
  {
    if tokens != [] {
      GrantedAreStored(roles, mine, tokens[..|tokens| - 1]);
    }
  }

  class User {
    var row: Row<UserCols>
    /** The loaded role and resource grants. */
    var roles: seq<Row<RoleCols>>
    var resources: seq<Row<ResourceCols>>

    constructor FromRow(r: Row<UserCols>)
      ensures row == r && roles == [] && resources == []
    {
      row := r;
      roles := [];
      resources := [];
    }

    /**
     * `Save`: overwrite every column of the stored row, then append a join row for
     * each loaded role and resource; a name another account holds is refused.
     */
    method Save(db: Db) returns (e: Outcome<Error>)
      requires db.Valid()
      modifies db`users, db`userRoles, db`userResources
      ensures db.Valid()
      ensures e.Fail? <==> Find(old(db.users), row.id).Some? && Taken(old(db.users), UserName, row.cols.name, row.id)
      ensures e.Fail? ==> e.error == DuplicateKey
      ensures var written := e.Pass? && Find(old(db.users), row.id).Some?;
        && db.users == (if written then Put(old(db.users), row.id, row.cols) else old(db.users))
        && db.userRoles == (if written then Link(old(db.userRoles), row.id, Ids(roles)) else old(db.userRoles))
        && db.userResources == (if written then Link(old(db.userResources), row.id, Ids(resources)) else old(db.userResources))
    {
      var stored := Find(db.users, row.id).Some?;
      e := SaveRow(db, row);
      if stored && e.Pass? {
        LinkGrants(db);
      }
    }

    /** The row half of `Save`: overwrite the stored row keyed `r.id`, unless its name is another account's. */
    static method SaveRow(db: Db, r: Row<UserCols>) returns (e: Outcome<Error>)
      requires db.Valid()
      modifies db`users
      ensures db.Valid()
      ensures e.Fail? <==> Find(old(db.users), r.id).Some? && Taken(old(db.users), UserName, r.cols.name, r.id)
      ensures e.Fail? ==> e.error == DuplicateKey && db.users == old(db.users)
      ensures e.Pass? ==> db.users == if Find(old(db.users), r.id).Some? then Put(old(db.users), r.id, r.cols) else old(db.users)
    {
      if Find(db.users, r.id).None? {
        return Pass;
      }
      if Taken(db.users, UserName, r.cols.name, r.id) {
        return Fail(DuplicateKey);
      }
      PutKeepsValid(db, r.id, r.cols);
      db.users := Put(db.users, r.id, r.cols);
      e := Pass;
    }

    /** The association half of `Save`: a join row for each loaded role and resource. */
    method LinkGrants(db: Db)
      modifies db`userRoles, db`userResources
      ensures db.userRoles == Link(old(db.userRoles), row.id, Ids(roles))
      ensures db.userResources == Link(old(db.userResources), row.id, Ids(resources))
    {
      db.userRoles := Link(db.userRoles, row.id, Ids(roles));
      db.userResources := Link(db.userResources, row.id, Ids(resources));
    }

    /** `IsLocked`: the lock flag is exactly 1. */
    function IsLocked(): (b: bool)
      reads this
      ensures b <==> row.cols.locked == 1
    {
      row.cols.locked == 1
    }

    /** `UnLock`: assigns `Locked = 0` in memory (gorm copies the written 1 back), and writes `locked = 1` to the store. */
    method UnLock(db: Db, now: nat) returns (e: Outcome<Error>)
      requires db.Valid()
      modifies this`row, db`users
      ensures db.Valid() && e == Pass && !IsLocked()
      ensures row == old(row).(cols := old(row).cols.(locked := 0))
      ensures db.users == Written(old(db.users), row.id, Untouched.(locked := Some(1), changedAt := Some(now)))
    {
      row := row.(cols := row.cols.(locked := 0));
      WriteRow(db, row.id, Untouched.(locked := Some(1), changedAt := Some(now)));
      e := Pass;
    }

    /** `UnLock` as evidently intended: the flag is cleared both in memory and in the store. */
    method UnLockIntended(db: Db, now: nat) returns (e: Outcome<Error>)
      requires db.Valid()
      modifies this`row, db`users
      ensures db.Valid() && e == Pass && !IsLocked()
      ensures row == old(row).(cols := old(row).cols.(locked := 0))
      ensures db.users == Written(old(db.users), row.id, Untouched.(locked := Some(0), changedAt := Some(now)))
      ensures Find(old(db.users), row.id).Some? ==> Find(db.users, row.id).value.cols.locked == 0
    {
      row := row.(cols := row.cols.(locked := 0));
      WriteRow(db, row.id, Untouched.(locked := Some(0), changedAt := Some(now)));
      if Find(old(db.users), row.id).Some? {
        UnLockIntendedStoresUnlocked(old(db.users), row.id, now);
      }
      e := Pass;
    }

    method Lock(db: Db, now: nat) returns (e: Outcome<Error>)
      requires db.Valid()
      modifies this`row, db`users
      ensures db.Valid() && e == Pass && IsLocked()
      ensures row == old(row).(cols := old(row).cols.(locked := 1))
      ensures db.users == Written(old(db.users), row.id, Untouched.(locked := Some(1), changedAt := Some(now)))
    {
      row := row.(cols := row.cols.(locked := 1));
      WriteRow(db, row.id, Untouched.(locked := Some(1), changedAt := Some(now)));
      e := Pass;
    }

    method AddRole(db: Db, rid: Id) returns (e: Outcome<Error>)
      requires db.Valid()
      modifies db`userRoles
      ensures Find(db.roles, rid).None? ==> e == Fail(RoleIdError) && db.userRoles == old(db.userRoles)
      ensures Find(db.roles, rid).Some? && row.id == 0 ==>
        e == Fail(NilPrimaryKey) && db.userRoles == old(db.userRoles)
      ensures Find(db.roles, rid).Some? && row.id != 0 ==>
        e == Pass && db.userRoles == Link(old(db.userRoles), row.id, {rid})
    {
      var role := Roles.LoadRole(db, rid);
      if role.id == 0 {
        return Fail(RoleIdError);
      }
      if row.id == 0 {
        return Fail(NilPrimaryKey);
      }
      db.userRoles := Link(db.userRoles, row.id, {role.id});
      e := Pass;
    }

    method DelRole(db: Db, rid: Id) returns (e: Outcome<Error>)
      requires db.Valid()
      modifies db`userRoles
      ensures Find(db.roles, rid).None? ==> e == Fail(RoleIdError) && db.userRoles == old(db.userRoles)
      ensures Find(db.roles, rid).Some? && row.id == 0 ==>
        e == Fail(NilPrimaryKey) && db.userRoles == old(db.userRoles)
      ensures Find(db.roles, rid).Some? && row.id != 0 ==>
        e == Pass && db.userRoles == Unlink(old(db.userRoles), row.id, {rid})
    {
      var role := Roles.LoadRole(db, rid);
      if role.id == 0 {
        return Fail(RoleIdError);
      }
      if row.id == 0 {
        return Fail(NilPrimaryKey);
      }
      db.userRoles := Unlink(db.userRoles, row.id, {role.id});
      e := Pass;
    }

    /** Load the role grants: the roles this account is linked to, in key order. */
    method LoadRole(db: Db) returns (e: Outcome<Error>)
      modifies this`roles
      ensures row.id == 0 ==> e == Fail(NilPrimaryKey) && roles == old(roles)
      ensures row.id != 0 ==> e == Pass
      ensures row.id != 0 ==> forall x :: x in roles <==> x in db.roles && x.id in Linked(db.userRoles, row.id)
    {
      if row.id == 0 {
        return Fail(NilPrimaryKey);
      }
      var granted := Linked(db.userRoles, row.id);
      roles := Where(db.roles, (x: Row<RoleCols>) => x.id in granted);
      e := Pass;
    }

    /**
     * `UpdateRoles`: resolves a whitespace-separated list of role keys, then
     * replaces the account's RESOURCE grants (user_resources) with those keys;
     * the role grants (user_roles) are left as they were. This is the effect at
     * the association level; the join rows gorm writes for role values differ.
     */
    method UpdateRoles(db: Db, roleids: string) returns (e: Outcome<Error>)
      requires db.Valid()
      modifies db`userResources
      ensures db.Valid()
      ensures row.id == 0 ==> e == Fail(NilPrimaryKey) && db.userResources == old(db.userResources)
      ensures row.id != 0 ==> e == Pass
      ensures row.id != 0 ==>
        db.userResources == Relink(old(db.userResources), row.id, FieldGrants(db.roles, roleids))
    {
      var tokens := Fields(TrimSpace(roleids));
      var list: seq<Row<RoleCols>> := [];
      var i := 0;
      while i < |tokens|
        invariant 0 <= i <= |tokens|
        invariant list == Resolve(db.roles, tokens[..i])
      {
        var id := ParseUint(tokens[i]);
        if id.Some? {
          var role := Roles.LoadRole(db, id.value);
          if role.id != 0 {
            list := list + [role];
          }
        }
        assert tokens[..i + 1][..i] == tokens[..i];
        i := i + 1;
      }
      assert tokens[..|tokens|] == tokens;
      if row.id == 0 {
        return Fail(NilPrimaryKey);
      }
      db.userResources := Relink(db.userResources, row.id, Ids(list));
      e := Pass;
    }

    method AddResource(db: Db, resid: Id) returns (e: Outcome<Error>)
      requires db.Valid()
      modifies db`userResources
      ensures Find(db.resources, resid).None? ==>
        e == Fail(ResourceIdError) && db.userResources == old(db.userResources)
      ensures Find(db.resources, resid).Some? && row.id == 0 ==>
        e == Fail(NilPrimaryKey) && db.userResources == old(db.userResources)
      ensures Find(db.resources, resid).Some? && row.id != 0 ==>
        e == Pass && db.userResources == Link(old(db.userResources), row.id, {resid})
    {
      var res := Resources.LoadResource(db, resid);
      if res.id == 0 {
        return Fail(ResourceIdError);
      }
      if row.id == 0 {
        return Fail(NilPrimaryKey);
      }
      db.userResources := Link(db.userResources, row.id, {res.id});
      e := Pass;
    }

    method DelResource(db: Db, resid: Id) returns (e: Outcome<Error>)
      requires db.Valid()
      modifies db`userResources
      ensures Find(db.resources, resid).None? ==>
        e == Fail(ResourceIdError) && db.userResources == old(db.userResources)
      ensures Find(db.resources, resid).Some? && row.id == 0 ==>
        e == Fail(NilPrimaryKey) && db.userResources == old(db.userResources)
      ensures Find(db.resources, resid).Some? && row.id != 0 ==>
        e == Pass && db.userResources == Unlink(old(db.userResources), row.id, {resid})
    {
      var res := Resources.LoadResource(db, resid);
      if res.id == 0 {
        return Fail(ResourceIdError);
      }
      if row.id == 0 {
        return Fail(NilPrimaryKey);
      }
      db.userResources := Unlink(db.userResources, row.id, {res.id});
      e := Pass;
    }

    /** Load the resource grants: the resources this account is linked to, in key order. */
    method LoadResource(db: Db) returns (e: Outcome<Error>)
      modifies this`resources
      ensures row.id == 0 ==> e == Fail(NilPrimaryKey) && resources == old(resources)
      ensures row.id != 0 ==> e == Pass
      ensures row.id != 0 ==> forall x :: x in resources <==>
        x in db.resources && x.id in Linked(db.userResources, row.id)
    {
      if row.id == 0 {
        return Fail(NilPrimaryKey);
      }
      var granted := Linked(db.userResources, row.id);
      resources := Where(db.resources, (x: Row<ResourceCols>) => x.id in granted);
      e := Pass;
    }

    /**
     * `UpdateResource`: replace the resource grants by the resources a
     * whitespace-separated id list names; other tokens are skipped silently.
     */
    method UpdateResource(db: Db, resids: string) returns (e: Outcome<Error>)
      requires db.Valid()
      modifies db`userResources
      ensures row.id == 0 ==> e == Fail(NilPrimaryKey) && db.userResources == old(db.userResources)
      ensures row.id != 0 ==> e == Pass
      ensures row.id != 0 ==>
        db.userResources == Relink(old(db.userResources), row.id, FieldGrants(db.resources, resids))
    {
      var tokens := Fields(TrimSpace(resids));
      var list: seq<Row<ResourceCols>> := [];
      var i := 0;
      while i < |tokens|
        invariant 0 <= i <= |tokens|
        invariant list == Resolve(db.resources, tokens[..i])
      {
        var id := ParseUint(tokens[i]);
        if id.Some? {
          var res := Resources.LoadResource(db, id.value);
          if res.id != 0 {
            list := list + [res];
          }
        }
        assert tokens[..i + 1][..i] == tokens[..i];
        i := i + 1;
      }
      assert tokens[..|tokens|] == tokens;
      if row.id == 0 {
        return Fail(NilPrimaryKey);
      }
      db.userResources := Relink(db.userResources, row.id, Ids(list));
      e := Pass;
    }

    /**
     * `UpdateLockIp`: pins the login address in memory; the store update is built
     * from a struct, so its zero fields are skipped: an empty address is not
     * written, and the change time is written only when it is not 0.
     */
    method UpdateLockIp(db: Db, ip: string, now: nat) returns (e: Outcome<Error>)
      requires db.Valid()
      modifies this`row, db`users
      ensures db.Valid() && e == Pass
      ensures row == old(row).(cols := old(row).cols.(lockIp := ip))
      ensures db.users == Written(old(db.users), row.id,
        Untouched.(lockIp := if ip != "" then Some(ip) else None,
                   changedAt := if now != 0 then Some(now) else None))
    {
      row := row.(cols := row.cols.(lockIp := ip));
      WriteRow(db, row.id, Untouched.(lockIp := if ip != "" then Some(ip) else None,
                                      changedAt := if now != 0 then Some(now) else None));
      e := Pass;
    }

    /**
     * `UpdatePassword`: with the right old password, draw a new salt (`salt`) and
     * store the digest of the new password with it; otherwise nothing changes.
     */
    method UpdatePassword(db: Db, newpasswd: string, oldpasswd: string, salt: string, now: nat)
      returns (e: Outcome<Error>)
      requires db.Valid()
      modifies this`row, db`users
      ensures db.Valid()
      ensures e.Pass? <==> PasswordOk(db.hash, old(row.cols), oldpasswd)
      ensures e.Fail? ==> e.error == PasswordError && row == old(row) && db.users == old(db.users)
      ensures e.Pass? ==> row == old(row).(cols := old(row).cols.(salt := salt, password := db.hash(newpasswd + salt)))
      ensures e.Pass? ==> db.users == Written(old(db.users), row.id,
        Untouched.(password := Some(row.cols.password), salt := Some(salt), changedAt := Some(now)))
      ensures e.Pass? ==> CheckPassword(db.hash, newpasswd)
    {
      if CheckPassword(db.hash, oldpasswd) {
        row := row.(cols := row.cols.(salt := salt, password := db.hash(newpasswd + salt)));
        WriteRow(db, row.id, Untouched.(password := Some(row.cols.password), salt := Some(salt), changedAt := Some(now)));
        e := Pass;
      } else {
        e := Fail(PasswordError);
      }
    }

    /** `CheckPassword`, with MD5 as `hash`. */
    function CheckPassword(hash: string -> Digest, passwd: string): (b: bool)
      reads this
      ensures b <==> PasswordOk(hash, row.cols, passwd)
    {
      hash(passwd + row.cols.salt) == row.cols.password
    }

    /** `GetMyRoleIds`: the keys of the loaded roles, each mapped to 1. */
    method GetMyRoleIds() returns (m: map<Id, int>)
      ensures m.Keys == Ids(roles)
      ensures forall id :: id in m ==> m[id] == 1
    {
      m := map[];
      var i := 0;
      while i < |roles|
        invariant 0 <= i <= |roles|
        invariant m.Keys == Ids(roles[..i])
        invariant forall id :: id in m ==> m[id] == 1
      {
        assert roles[..i + 1] == roles[..i] + [roles[i]];
        IdsAppend(roles[..i], roles[i]);
        m := m[roles[i].id := 1];
        i := i + 1;
      }
      assert roles[..|roles|] == roles;
    }

    /** `GetMyResourceIds`: the keys of the loaded resources, each mapped to 1. */
    method GetMyResourceIds() returns (m: map<Id, int>)
      ensures m.Keys == Ids(resources)
      ensures forall id :: id in m ==> m[id] == 1
    {
      m := map[];
      var i := 0;
      while i < |resources|
        invariant 0 <= i <= |resources|
        invariant m.Keys == Ids(resources[..i])
        invariant forall id :: id in m ==> m[id] == 1
      {
        assert resources[..i + 1] == resources[..i] + [resources[i]];
        IdsAppend(resources[..i], resources[i]);
        m := m[resources[i].id := 1];
        i := i + 1;
      }
      assert resources[..|resources|] == resources;
    }

    static method WriteRow(db: Db, id: Id, p: UserPatch)
      requires db.Valid()
      modifies db`users
      ensures db.Valid() && db.users == Written(old(db.users), id, p)
    {
      WrittenKeepsValid(db, id, p);
      db.users := Written(db.users, id, p);
    }

    /** The steps of `NewUser` after the INSERT: apply a non-blank role list, then join an existing group. */
    method Provision(db: Db, roleids: string, groupid: Id)
      requires db.Valid() && row.id != 0
      modifies db`userResources, db`groupMembers
      ensures db.Valid()
      ensures db.userResources ==
        if roleids != "" then Relink(old(db.userResources), row.id, FieldGrants(db.roles, roleids))
        else old(db.userResources)
      ensures db.groupMembers == Joined(db.groups, old(db.groupMembers), groupid, row.id)
    {
      if roleids != "" {
        var _ := UpdateRoles(db, roleids);
      }
      Enrol(db, groupid, row);
    }

    /**
     * `CreateUser`: a sub-account must name a group; the new account gets the
     * roles of the list that its creator holds itself, a login code when it got
     * any, and membership of the group when the group exists.
     */
    method CreateUser(db: Db, name: string, password: string, roleids: string, lockip: string,
                      groupid: Id, salt: string, now: nat, suffix: string)
      returns (u: User?, e: Outcome<Error>)
      requires db.Valid()
      modifies db`users, db`nextUser, db`userRoles, db`userResources, db`groupMembers
      ensures db.Valid() && db.userResources == old(db.userResources)
      ensures u == null <==> e.Fail?
      ensures e == Fail(GroupIdError) <==> row.cols.ownerId != 0 && groupid == 0
      ensures e == Fail(DuplicateKey) <==>
        (row.cols.ownerId == 0 || groupid != 0) && Taken(old(db.users), UserName, name, 0)
      ensures e.Fail? ==>
        db.users == old(db.users) && db.nextUser == old(db.nextUser) &&
        db.userRoles == old(db.userRoles) && db.groupMembers == old(db.groupMembers)
      ensures u != null ==> fresh(u) && u.resources == [] && u.row.id == old(db.nextUser)
      ensures u != null ==> db.users == old(db.users) + [u.row] && db.nextUser == old(db.nextUser) + 1
      ensures u != null ==> u.roles == Granted(db.roles, Ids(roles), Roles.CsvTokens(roleids))
      ensures u != null ==> (u.row.cols == UserCols(name, db.hash(password + salt), salt, row.id,
        LoginCode(u.row.id, "", u.roles, now, suffix), 0, lockip, now, 0))
      ensures u != null ==> db.userRoles == Link(old(db.userRoles), u.row.id, Ids(u.roles))
      ensures u != null ==> db.groupMembers == Joined(db.groups, old(db.groupMembers), groupid, u.row.id)
    {
      if row.cols.ownerId != 0 && groupid == 0 {
        return null, Fail(GroupIdError);
      }
      var mine := GetMyRoleIds();
      u, e := Open(db, mine.Keys, row.id, name, password, roleids, lockip, groupid, salt, now, suffix);
    }

    /** `CreateUser` past its group check: `NewUser`, then the roles of the list its creator holds (`mine`), then the group. */
    static method Open(db: Db, mine: set<Id>, owner: Id, name: string, password: string, roleids: string,
                       lockip: string, groupid: Id, salt: string, now: nat, suffix: string)
      returns (u: User?, e: Outcome<Error>)
      requires db.Valid()
      modifies db`users, db`nextUser, db`userRoles, db`userResources, db`groupMembers
      ensures db.Valid() && db.userResources == old(db.userResources)
      ensures u == null <==> e.Fail?
      ensures e.Fail? <==> Taken(old(db.users), UserName, name, 0)
      ensures e.Fail? ==> e.error == DuplicateKey
      ensures e.Fail? ==>
        db.users == old(db.users) && db.nextUser == old(db.nextUser) &&
        db.userRoles == old(db.userRoles) && db.groupMembers == old(db.groupMembers)
      ensures u != null ==> fresh(u) && u.resources == [] && u.row.id == old(db.nextUser)
      ensures u != null ==> db.users == old(db.users) + [u.row] && db.nextUser == old(db.nextUser) + 1
      ensures u != null ==> u.roles == Granted(db.roles, mine, Roles.CsvTokens(roleids))
      ensures u != null ==> (u.row.cols == UserCols(name, db.hash(password + salt), salt, owner,
        LoginCode(u.row.id, "", u.roles, now, suffix), 0, lockip, now, 0))
      ensures u != null ==> db.userRoles == Link(old(db.userRoles), u.row.id, Ids(u.roles))
      ensures u != null ==> db.groupMembers == Joined(db.groups, old(db.groupMembers), groupid, u.row.id)
    {
      u, e := NewUserNoRoles(db, name, password, lockip, groupid, owner, salt, now);
      if e.Fail? {
        return;
      }
      u.Complete(db, old(db.users), old(db.groupMembers), mine, roleids, groupid, now, suffix);
    }

    /**
     * The steps of `CreateUser` after `NewUser`: take the roles, then join the group
     * once more; `NewUser` already made the account a member (of `members`, the
     * membership before it), so the second join changes nothing.
     */
    method Complete(db: Db, ghost prior: seq<Row<UserCols>>, ghost members: Assoc, mine: set<Id>,
                    roleids: string, groupid: Id, now: nat, suffix: string)
      requires db.Valid() && roles == [] && resources == []
      requires db.users == prior + [row]
      requires db.groupMembers == Joined(db.groups, members, groupid, row.id)
      modifies this`roles, this`row, db`users, db`userRoles, db`userResources, db`groupMembers
      ensures db.Valid() && db.userResources == old(db.userResources)
      ensures roles == Granted(db.roles, mine, Roles.CsvTokens(roleids))
      ensures row == old(row).(cols := old(row).cols.(code := LoginCode(old(row).id, old(row).cols.code, roles, now, suffix)))
      ensures db.users == prior + [row]
      ensures db.userRoles == Link(old(db.userRoles), row.id, Ids(roles))
      ensures db.groupMembers == old(db.groupMembers)
    {
      TakeRoles(db, prior, mine, roleids, now, suffix);
      Enrol(db, groupid, row);
      LinkTwice(members, groupid, {row.id});
    }

    /**
     * The loop of `CreateUser`, run on the new account: keep each listed role that
     * the creator holds (`mine`) and that is stored; when any was kept, give the
     * account a login code and save it, which also stores the role links.
     */
    method TakeRoles(db: Db, ghost prior: seq<Row<UserCols>>, mine: set<Id>, roleids: string, now: nat, suffix: string)
      requires db.Valid() && roles == [] && resources == []
      requires db.users == prior + [row]
      modifies this`roles, this`row, db`users, db`userRoles, db`userResources
      ensures db.Valid() && db.userResources == old(db.userResources)
      ensures roles == Granted(db.roles, mine, Roles.CsvTokens(roleids))
      ensures row == old(row).(cols := old(row).cols.(code := LoginCode(old(row).id, old(row).cols.code, roles, now, suffix)))
      ensures db.users == prior + [row]
      ensures db.userRoles == Link(old(db.userRoles), row.id, Ids(roles))
    {
      roles := PickRoles(db, mine, roleids);
      if roles != [] {
        StoredNotTaken(db.users, UserName, |db.users| - 1);
        row := row.(cols := row.cols.(code := LoginCode(row.id, row.cols.code, roles, now, suffix)));
        PutLast(db.users, db.nextUser, row.cols);
        assert db.users[..|db.users| - 1] == prior;
        assert Ids(resources) == {};
        var _ := Save(db);
      }
    }

    /** The loop of `CreateUser` over the role list: the listed roles the creator holds and that are stored. */
    static method PickRoles(db: Db, mine: set<Id>, roleids: string) returns (picked: seq<Row<RoleCols>>)
      requires db.Valid()
      ensures picked == Granted(db.roles, mine, Roles.CsvTokens(roleids))
    {
      var tokens := Split(TrimSpace(roleids), ',');
      picked := [];
      var i := 0;
      while i < |tokens|
        invariant 0 <= i <= |tokens|
        invariant picked == Granted(db.roles, mine, tokens[..i])
      {
        var id := ParseUint(tokens[i]);
        if id.Some? && id.value in mine {
          var role := Roles.LoadRole(db, id.value);
          if role.id != 0 {
            picked := picked + [role];
          }
        }
        assert tokens[..i + 1][..i] == tokens[..i];
        i := i + 1;
      }
      assert tokens[..|tokens|] == tokens;
    }

    /** `UpdateResourceForUser`: a top-level account replaces another account's resource grants. */
    method UpdateResourceForUser(db: Db, userid: Id, resids: string) returns (e: Outcome<Error>)
      requires db.Valid()
      modifies db`userResources
      ensures row.cols.ownerId != 0 ==> e == Fail(NoPermissions)
      ensures row.cols.ownerId == 0 && (userid == 0 || resids == "" || Find(db.users, userid).None?) ==>
        e == Fail(UserOrResourceIdError)
      ensures e.Fail? ==> db.userResources == old(db.userResources)
      ensures row.cols.ownerId == 0 && userid != 0 && resids != "" && Find(db.users, userid).Some? ==>
        e == Pass && db.userResources == Relink(old(db.userResources), userid, FieldGrants(db.resources, resids))
    {
      if row.cols.ownerId == 0 {
        if userid == 0 || resids == "" {
          return Fail(UserOrResourceIdError);
        }
        var found := FindUserById(db, userid);
        if found.id == 0 {
          return Fail(UserOrResourceIdError);
        }
        var target := new User.FromRow(found);
        e := target.UpdateResource(db, resids);
      } else {
        e := Fail(NoPermissions);
      }
    }

    /** `CreateGroup`: only a top-level account creates groups, and owns what it creates. */
    method CreateGroup(db: Db, name: string, desc: string, now: nat) returns (g: Groups.Group?)
      requires db.Valid()
      modifies db`groups, db`nextGroup
      ensures db.Valid()
      ensures row.cols.ownerId != 0 ==> g == null && db.groups == old(db.groups) && db.nextGroup == old(db.nextGroup)
      ensures row.cols.ownerId == 0 ==> g != null && fresh(g) && g.row.cols == GroupCols(name, desc, row.id, 0, now, 0)
      ensures row.cols.ownerId == 0 ==> (g.row.id != 0 <==>
        !Taken(old(db.groups), GroupName, name, 0) && !Taken(old(db.groups), GroupOwner, row.id, 0))
      ensures g != null && g.row.id != 0 ==> db.groups == old(db.groups) + [g.row]
      ensures g != null && g.row.id == 0 ==> db.groups == old(db.groups) && db.nextGroup == old(db.nextGroup)
      ensures g != null && g.row.id != 0 ==> db.nextGroup == old(db.nextGroup) + 1
    {
      if row.cols.ownerId == 0 {
        g := Groups.NewGroup(db, name, desc, row.id, now);
      } else {
        g := null;
      }
    }

    /** `CreateRole`: only a top-level account creates roles; a new role has no grants. */
    method CreateRole(db: Db, name: string, desc: string, status: u32) returns (r: Roles.Role?)
      requires db.Valid()
      modifies db`roles, db`nextRole, db`roleResources
      ensures db.Valid() && db.roleResources == old(db.roleResources)
      ensures row.cols.ownerId != 0 ==> r == null && db.roles == old(db.roles) && db.nextRole == old(db.nextRole)
      ensures row.cols.ownerId == 0 ==> (r != null && fresh(r) &&
        r.row == Row(old(db.nextRole), RoleCols(name, desc, status)) && db.roles == old(db.roles) + [r.row]
        && db.nextRole == old(db.nextRole) + 1)
    {
      if row.cols.ownerId == 0 {
        r := Roles.NewRole(db, name, desc, status, "");
      } else {
        r := null;
      }
    }

    /** `UpdateResourceForRole`: a top-level account replaces a role's grants. */
    method UpdateResourceForRole(db: Db, roleid: Id, resids: string) returns (e: Outcome<Error>)
      requires db.Valid()
      modifies db`roleResources
      ensures row.cols.ownerId != 0 ==> e == Fail(NoPermissions)
      ensures row.cols.ownerId == 0 && (roleid == 0 || resids == "" || Find(db.roles, roleid).None?) ==>
        e == Fail(RoleOrResourceIdError)
      ensures e.Fail? ==> db.roleResources == old(db.roleResources)
      ensures row.cols.ownerId == 0 && roleid != 0 && resids != "" && Find(db.roles, roleid).Some? ==>
        e == Pass && db.roleResources == Relink(old(db.roleResources), roleid, Roles.CsvGrants(db.resources, resids))
    {
      if row.cols.ownerId == 0 {
        if roleid == 0 || resids == "" {
          return Fail(RoleOrResourceIdError);
        }
        var found := Roles.LoadRole(db, roleid);
        if found.id == 0 {
          return Fail(RoleOrResourceIdError);
        }
        var role := new Roles.Role.FromRow(found);
        e := role.UpdateResource(db, resids);
      } else {
        e := Fail(NoPermissions);
      }
    }

    /** `CreateResource`: only a top-level account creates resources. */
    method CreateResource(db: Db, name: string, resClass: string, attr: string,
                          resType: u32, order: u32, status: u32, parentId: Id)
      returns (r: Resources.Resource?)
      requires db.Valid()
      modifies db`resources, db`nextResource
      ensures db.Valid()
      ensures row.cols.ownerId != 0 ==> r == null && db.resources == old(db.resources) && db.nextResource == old(db.nextResource)
      ensures row.cols.ownerId == 0 ==> (r != null && fresh(r) &&
        r.row.cols == ResourceCols(name, resClass, attr, resType, parentId, order, status))
      ensures row.cols.ownerId == 0 ==> (r.row.id != 0 <==> !Taken(old(db.resources), ResourceName, name, 0))
      ensures r != null && r.row.id != 0 ==> db.resources == old(db.resources) + [r.row]
      ensures r != null && r.row.id == 0 ==> db.resources == old(db.resources) && db.nextResource == old(db.nextResource)
      ensures r != null && r.row.id != 0 ==> db.nextResource == old(db.nextResource) + 1
    {
      if row.cols.ownerId == 0 {
        r := Resources.NewResource(db, name, resClass, attr, resType, order, status, parentId);
      } else {
        r := null;
      }
    }
  }


  /** `db.Create(u)` for an account: INSERT under the next key, unless the name is taken. */
  method Insert(db: Db, cols: UserCols) returns (u: User?, e: Outcome<Error>)
    requires db.Valid()
    modifies db`users, db`nextUser
    ensures db.Valid()
    ensures u == null <==> e.Fail?
    ensures e.Fail? <==> Taken(old(db.users), UserName, cols.name, 0)
    ensures e.Fail? ==> e.error == DuplicateKey && db.users == old(db.users) && db.nextUser == old(db.nextUser)
    ensures u != null ==> fresh(u) && u.row == Row(old(db.nextUser), cols) && u.roles == [] && u.resources == []
    ensures u != null ==> db.users == old(db.users) + [u.row] && db.nextUser == old(db.nextUser) + 1
  {
    if Taken(db.users, UserName, cols.name, 0) {
      return null, Fail(DuplicateKey);
    }
    KeyedInsert(db.users, db.nextUser, cols);
    UniqueInsert(db.users, UserName, cols);
    u := new User.FromRow(Row(db.nextUser, cols));
    db.users := db.users + [u.row];
    db.nextUser := db.nextUser + 1;
    e := Pass;
  }

  /** The group step of `NewUser` and `CreateUser`: a group that exists gains the account as a member. */
  method Enrol(db: Db, groupid: Id, member: Row<UserCols>)
    requires db.Valid()
    modifies db`groupMembers
    ensures db.Valid()
    ensures db.groupMembers == Joined(db.groups, old(db.groupMembers), groupid, member.id)
  {
    if groupid != 0 {
      var group := Groups.LoadGroupById(db, groupid);
      if group.id != 0 {
        var g := new Groups.Group.FromRow(group);
        var _ := g.AddMember(db, member);
      }
    }
  }

  /**
   * `NewUser`: INSERT an account with the salted digest of its password; a taken
   * name is refused. A non-blank role list is applied with `UpdateRoles`, and an
   * existing group gains the account as a member.
   */
  method NewUser(db: Db, name: string, password: string, roleids: string, lockip: string,
                 groupid: Id, owner: Id, salt: string, now: nat)
    returns (u: User?, e: Outcome<Error>)
    requires db.Valid()
    modifies db`users, db`nextUser, db`userResources, db`groupMembers
    ensures db.Valid()
    ensures u == null <==> e.Fail?
    ensures e.Fail? <==> Taken(old(db.users), UserName, name, 0)
    ensures e.Fail? ==> e.error == DuplicateKey
    ensures u != null ==> fresh(u) && u.roles == [] && u.resources == []
    ensures u != null ==>
      u.row == Row(old(db.nextUser), UserCols(name, db.hash(password + salt), salt, owner, "", 0, lockip, now, 0))
    ensures db.users == (if u != null then old(db.users) + [u.row] else old(db.users))
    ensures db.nextUser == (if u != null then old(db.nextUser) + 1 else old(db.nextUser))
    ensures db.userResources ==
      if u != null && TrimSpace(roleids) != ""
      then Relink(old(db.userResources), u.row.id, FieldGrants(db.roles, TrimSpace(roleids)))
      else old(db.userResources)
    ensures db.groupMembers == if u != null then Joined(db.groups, old(db.groupMembers), groupid, u.row.id)
      else old(db.groupMembers)
  {
    u, e := Insert(db, UserCols(name, db.hash(password + salt), salt, owner, "", 0, lockip, now, 0));
    if e.Pass? {
      u.Provision(db, TrimSpace(roleids), groupid);
    }
  }

  /** `NewUser` as `CreateUser` calls it, with an empty role list: no resource grant changes. */
  method NewUserNoRoles(db: Db, name: string, password: string, lockip: string,
                        groupid: Id, owner: Id, salt: string, now: nat)
    returns (u: User?, e: Outcome<Error>)
    requires db.Valid()
    modifies db`users, db`nextUser, db`userResources, db`groupMembers
    ensures db.Valid() && db.userResources == old(db.userResources)
    ensures u == null <==> e.Fail?
    ensures e.Fail? <==> Taken(old(db.users), UserName, name, 0)
    ensures e.Fail? ==>
      e.error == DuplicateKey && db.users == old(db.users) && db.nextUser == old(db.nextUser) &&
      db.groupMembers == old(db.groupMembers)
    ensures u != null ==>
      && fresh(u) && u.roles == [] && u.resources == []
      && u.row == Row(old(db.nextUser), UserCols(name, db.hash(password + salt), salt, owner, "", 0, lockip, now, 0))
      && db.users == old(db.users) + [u.row] && db.nextUser == old(db.nextUser) + 1
      && db.groupMembers == Joined(db.groups, old(db.groupMembers), groupid, u.row.id)
  {
    assert TrimSpace("") == "";
    u, e := NewUser(db, name, password, "", lockip, groupid, owner, salt, now);
  }

  /** `FindUserById`: the account with that key, or the zero value (key 0). */
  function FindUserById(db: Db, id: Id): (r: Row<UserCols>)
    reads db
    requires db.Valid()
    ensures r.id != 0 <==> Find(db.users, id).Some?
    ensures r.id != 0 ==> r.id == id && r in db.users
    ensures r.id == 0 ==> r == Row(0, ZeroUser) && forall i :: 0 <= i < |db.users| ==> db.users[i].id != id
  {
    OrZero(Find(db.users, id), ZeroUser)
  }

  /** `FindUserByName`: the account with that name, or the zero value (key 0). */
  function FindUserByName(db: Db, name: string): (r: Row<UserCols>)
    reads db
    requires db.Valid()
    ensures r.id != 0 <==> exists i :: 0 <= i < |db.users| && db.users[i].cols.name == name
    ensures r.id != 0 ==> r in db.users && r.cols.name == name
    ensures r.id == 0 ==> r == Row(0, ZeroUser)
  {
    OrZero(FirstWhere(db.users, (x: Row<UserCols>) => x.cols.name == name), ZeroUser)
  }

  /** An account may log in: its password checks, the address is allowed, it is not locked and its group (if any) is enabled. */
  predicate Admits(db: Db, u: Row<UserCols>, password: string, ip: string)
    reads db
    requires db.Valid()
  {
    && PasswordOk(db.hash, u.cols, password)
    && FromPinnedIp(u.cols, ip)
    && u.cols.locked != 1
    && Groups.LoadGroupByMemberId(db, u.id).cols.status == 0
  }

  /**
   * `UserLogin`: look the account up by name, then check, in this order, the
   * password, the pinned address, the lock flag and the status of its group.
   * The lookup never yields nil, so its nil check is never taken.
   */
  function UserLogin(db: Db, name: string, password: string, ip: string): (r: Result<Row<UserCols>, Error>)
    reads db
    requires db.Valid()
    ensures r.Success? ==> r.value in db.users && r.value.cols.name == name && Admits(db, r.value, password, ip)
    ensures r.Failure? ==> r.error in {BadCredentials, IpRejected, AccountLocked, GroupDisabled}
  {
    var u := FindUserByName(db, name);
    if !PasswordOk(db.hash, u.cols, password) then Failure(BadCredentials)
    else if u.cols.lockIp != "" && u.cols.lockIp != ip then Failure(IpRejected)
    else if u.cols.locked == 1 then Failure(AccountLocked)
    else if Groups.LoadGroupByMemberId(db, u.id).cols.status != 0 then Failure(GroupDisabled)
    else Success(u)
  }

  /** The account a name picks out is the stored row with that name, names being unique. */
  lemma NamedAccount(db: Db, name: string, i: nat)
    requires db.Valid() && i < |db.users| && db.users[i].cols.name == name
    ensures FindUserByName(db, name) == db.users[i]
  {
    var u := FindUserByName(db, name);
    var j :| 0 <= j < |db.users| && db.users[j] == u;
    if j != i {
      ColsDistinct(db.users, UserName, i, j);
    }
  }

  /** A login succeeds exactly when a stored account has that name and admits the attempt. */
  lemma LoginExactly(db: Db, name: string, password: string, ip: string)
    requires db.Valid()
    ensures UserLogin(db, name, password, ip).Success? <==>
      exists i :: 0 <= i < |db.users| && db.users[i].cols.name == name && Admits(db, db.users[i], password, ip)
  {
    if exists i :: 0 <= i < |db.users| && db.users[i].cols.name == name && Admits(db, db.users[i], password, ip) {
      var i :| 0 <= i < |db.users| && db.users[i].cols.name == name && Admits(db, db.users[i], password, ip);
      NamedAccount(db, name, i);
    }
    var r := UserLogin(db, name, password, ip);
    if r.Success? {
      var i :| 0 <= i < |db.users| && db.users[i] == r.value;
      assert db.users[i].cols.name == name && Admits(db, db.users[i], password, ip);
    }
  }

  /**
   * An unknown name is refused as bad credentials: the lookup yields the zero
   * account, whose empty digest no 32-character digest matches.
   */
  lemma LoginUnknownName(db: Db, name: string, password: string, ip: string)
    requires db.Valid() && forall i :: 0 <= i < |db.users| ==> db.users[i].cols.name != name
    ensures UserLogin(db, name, password, ip) == Failure(BadCredentials)
  {
    assert FindUserByName(db, name) == Row(0, ZeroUser);
    assert |db.hash(password + "")| == 32;
  }

  /** Bad credentials exactly when no stored account of that name has that password. */
  lemma LoginBadCredentials(db: Db, name: string, password: string, ip: string)
    requires db.Valid()
    ensures UserLogin(db, name, password, ip) == Failure(BadCredentials) <==>
      !exists i :: 0 <= i < |db.users| && db.users[i].cols.name == name && PasswordOk(db.hash, db.users[i].cols, password)
  {
    if exists i :: 0 <= i < |db.users| && db.users[i].cols.name == name {
      var i :| 0 <= i < |db.users| && db.users[i].cols.name == name;
      NamedAccount(db, name, i);
      forall k | 0 <= k < |db.users| && db.users[k].cols.name == name ensures k == i {
        NamedAccount(db, name, k);
        KeysDistinct(db.users, db.nextUser, i, k);
      }
    } else {
      LoginUnknownName(db, name, password, ip);
    }
  }

  /** Past the password, the remaining checks fail in order: address, then lock, then group. */
  lemma LoginOrder(db: Db, name: string, password: string, ip: string, i: nat)
    requires db.Valid() && i < |db.users| && db.users[i].cols.name == name
    requires PasswordOk(db.hash, db.users[i].cols, password)
    ensures var r, c := UserLogin(db, name, password, ip), db.users[i].cols;
      && (r == Failure(IpRejected) <==> !FromPinnedIp(c, ip))
      && (r == Failure(AccountLocked) <==> FromPinnedIp(c, ip) && c.locked == 1)
      && (r == Failure(GroupDisabled) <==>
            FromPinnedIp(c, ip) && c.locked != 1 && Groups.LoadGroupByMemberId(db, db.users[i].id).cols.status != 0)
  {
    NamedAccount(db, name, i);
  }

  /** An account pinned to no address gets the same answer from every address. */
  lemma UnpinnedAnyIp(db: Db, name: string, password: string, ip1: string, ip2: string)
    requires db.Valid() && FindUserByName(db, name).cols.lockIp == ""
    ensures UserLogin(db, name, password, ip1) == UserLogin(db, name, password, ip2)
  {
  }

  /** An account that belongs to no group is never refused for its group. */
  lemma UngroupedNotDisabled(db: Db, name: string, password: string, ip: string)
    requires db.Valid()
    requires forall g :: 0 <= g < |db.groups| ==>
      FindUserByName(db, name).id !in Linked(db.groupMembers, db.groups[g].id)
    ensures UserLogin(db, name, password, ip) != Failure(GroupDisabled)
  {
    var u := FindUserByName(db, name);
    assert Groups.LoadGroupByMemberId(db, u.id) == Row(0, ZeroGroup);
  }
}
