/**
 * Groups: one per owning user, with an admin set and a member set (the
 * group_admins and group_members join tables). A user is meant to belong to one
 * group only, but nothing on the write path enforces that.
 */
module Groups {
  import opened Wrappers
  import opened Tables
  import opened Store

  /** The columns one `Model(g).Updates(...)` call names. */
  datatype GroupPatch = GroupPatch(
    name: Option<string>, desc: Option<string>, status: Option<u32>, updatedAt: Option<nat>)

  function Patched(c: GroupCols, p: GroupPatch): GroupCols
  {
    c.(name := if p.name.Some? then p.name.value else c.name,
       desc := if p.desc.Some? then p.desc.value else c.desc,
       status := if p.status.Some? then p.status.value else c.status,
       updatedAt := if p.updatedAt.Some? then p.updatedAt.value else c.updatedAt)
  }

  /**
   * The groups table after the UPDATE: the row keyed `id`, if stored, takes the named
   * columns. A receiver with key 0 adds no key condition, so every row takes them.
   */
  function Written(t: seq<Row<GroupCols>>, id: Id, p: GroupPatch): seq<Row<GroupCols>>
  {
    if id == 0 then Every(t, (c: GroupCols) => Patched(c, p))
    else
      match Find(t, id)
      case None => t
      case Some(x) => Put(t, id, Patched(x.cols, p))
  }

  /**
   * The write would give two groups the same name, which the unique index refuses:
   * the group keyed `id` is stored and another group already has the name, or, with
   * key 0, at least two groups get it. An UPDATE whose key matches no group touches
   * nothing, so no index is checked.
   */
  predicate Conflicts(t: seq<Row<GroupCols>>, id: Id, p: GroupPatch)
  {
    p.name.Some? && if id == 0 then |t| >= 2 else Find(t, id).Some? && Taken(t, GroupName, p.name.value, id)
  }

  /** An UPDATE by a nonzero key that no group has matches nothing: no error and no change. */
  lemma UnstoredKeyWritesNothing(t: seq<Row<GroupCols>>, id: Id, p: GroupPatch)
    requires id != 0 && Find(t, id).None?
    ensures !Conflicts(t, id, p) && Written(t, id, p) == t
  {
  }

  /** Renaming through key 0 gives every group the one name, which two groups cannot share. */
  lemma ZeroKeyRenameCollides(t: seq<Row<GroupCols>>, p: GroupPatch)
    requires p.name.Some? && |t| >= 2
    ensures !UniqueBy(Written(t, 0, p), GroupName)
  {
    EveryCollides(t, GroupName, (c: GroupCols) => Patched(c, p), p.name.value);
  }

  lemma WrittenKeepsValid(db: Db, id: Id, p: GroupPatch)
    requires db.Valid() && !Conflicts(db.groups, id, p)
    ensures Keyed(Written(db.groups, id, p), db.nextGroup)
    ensures UniqueBy(Written(db.groups, id, p), GroupName)
    ensures UniqueBy(Written(db.groups, id, p), GroupOwner)
  {
    var t := db.groups;
    if id == 0 {
      var f := (c: GroupCols) => Patched(c, p);
      KeyedEvery(t, db.nextGroup, f);
      UniqueEvery(t, GroupOwner, f);
      if p.name.None? {
        UniqueEvery(t, GroupName, f);
      }
      return;
    }
    match Find(t, id)
    case None =>
    case Some(x) =>
      var c := Patched(x.cols, p);
      KeyedPut(t, db.nextGroup, id, c);
      var j :| 0 <= j < |t| && t[j] == x;
      forall i | 0 <= i < |t| && t[i].id != id
        ensures GroupName(t[i].cols) != GroupName(c) && GroupOwner(t[i].cols) != GroupOwner(c)
      {
        ColsDistinct(t, GroupName, i, j);
        ColsDistinct(t, GroupOwner, i, j);
      }
      UniquePut(t, db.nextGroup, GroupName, id, c);
      UniquePut(t, db.nextGroup, GroupOwner, id, c);
  }

  /** Some user in the loaded slice has key `id`. */
  predicate Listed(users: seq<Row<UserCols>>, id: Id)
  {
    exists k :: 0 <= k < |users| && users[k].id == id
  }

  class Group {
    var row: Row<GroupCols>
    /** The loaded admin and member sets. */
    var admins: seq<Row<UserCols>>
    var members: seq<Row<UserCols>>

    constructor FromRow(r: Row<GroupCols>)
      ensures row == r && admins == [] && members == []
    {
      row := r;
      admins, members := [], [];
    }

    method UpdateName(db: Db, name: string, now: nat) returns (e: Outcome<Error>)
      requires db.Valid()
      modifies this`row, db`groups
      ensures db.Valid()
      ensures row == old(row).(cols := old(row).cols.(name := name))
      ensures e.Fail? <==> Conflicts(old(db.groups), old(row).id, GroupPatch(Some(name), None, None, Some(now)))
      ensures e.Fail? ==> e.error == DuplicateKey && db.groups == old(db.groups)
      ensures e.Pass? ==> db.groups == Written(old(db.groups), row.id, GroupPatch(Some(name), None, None, Some(now)))
    {
      row := row.(cols := row.cols.(name := name));
      e := WriteRow(db, row.id, GroupPatch(Some(name), None, None, Some(now)));
    }

    method UpdateDesc(db: Db, desc: string, now: nat) returns (e: Outcome<Error>)
      requires db.Valid()
      modifies this`row, db`groups
      ensures db.Valid() && e == Pass
      ensures row == old(row).(cols := old(row).cols.(desc := desc))
      ensures db.groups == Written(old(db.groups), row.id, GroupPatch(None, Some(desc), None, Some(now)))
    {
      row := row.(cols := row.cols.(desc := desc));
      e := WriteRow(db, row.id, GroupPatch(None, Some(desc), None, Some(now)));
    }

    method UpdateStatus(db: Db, status: u32, now: nat) returns (e: Outcome<Error>)
      requires db.Valid()
      modifies this`row, db`groups
      ensures db.Valid() && e == Pass
      ensures row == old(row).(cols := old(row).cols.(status := status))
      ensures db.groups == Written(old(db.groups), row.id, GroupPatch(None, None, Some(status), Some(now)))
    {
      row := row.(cols := row.cols.(status := status));
      e := WriteRow(db, row.id, GroupPatch(None, None, Some(status), Some(now)));
    }

    /** Add an admin unless the loaded admin slice already lists that user. */
    method AddAdmin(db: Db, u: Row<UserCols>) returns (e: Outcome<Error>)
      modifies db`groupAdmins
      ensures Listed(admins, u.id) ==> e == Pass && db.groupAdmins == old(db.groupAdmins)
      ensures !Listed(admins, u.id) && row.id == 0 ==>
        e == Fail(NilPrimaryKey) && db.groupAdmins == old(db.groupAdmins)
      ensures !Listed(admins, u.id) && row.id != 0 ==>
        e == Pass && db.groupAdmins == Link(old(db.groupAdmins), row.id, {u.id})
    {
      var i := 0;
      while i < |admins|
        invariant 0 <= i <= |admins|
        invariant forall k :: 0 <= k < i ==> admins[k].id != u.id
      {
        if admins[i].id == u.id {
          return Pass;
        }
        i := i + 1;
      }
      if row.id == 0 {
        return Fail(NilPrimaryKey);
      }
      db.groupAdmins := Link(db.groupAdmins, row.id, {u.id});
      e := Pass;
    }

    /** Remove an admin, but only one the loaded admin slice lists; otherwise do nothing. */
    method DelAdmin(db: Db, u: Row<UserCols>) returns (e: Outcome<Error>)
      modifies db`groupAdmins
      ensures !Listed(admins, u.id) ==> e == Pass && db.groupAdmins == old(db.groupAdmins)
      ensures Listed(admins, u.id) && row.id == 0 ==>
        e == Fail(NilPrimaryKey) && db.groupAdmins == old(db.groupAdmins)
      ensures Listed(admins, u.id) && row.id != 0 ==>
        e == Pass && db.groupAdmins == Unlink(old(db.groupAdmins), row.id, {u.id})
    {
      var i := 0;
      while i < |admins|
        invariant 0 <= i <= |admins|
        invariant forall k :: 0 <= k < i ==> admins[k].id != u.id
      {
        if admins[i].id == u.id {
          if row.id == 0 {
            return Fail(NilPrimaryKey);
          }
          db.groupAdmins := Unlink(db.groupAdmins, row.id, {u.id});
          return Pass;
        }
        i := i + 1;
      }
      e := Pass;
    }

    /** Load the admins: the users linked as admins, in key order. */
    method LoadAdmin(db: Db) returns (e: Outcome<Error>)
      modifies this`admins
      ensures row.id == 0 ==> e == Fail(NilPrimaryKey) && admins == old(admins)
      ensures row.id != 0 ==> e == Pass
      ensures row.id != 0 ==> forall x :: x in admins <==>
        x in db.users && x.id in Linked(db.groupAdmins, row.id)
    {
      if row.id == 0 {
        return Fail(NilPrimaryKey);
      }
      var linked := Linked(db.groupAdmins, row.id);
      admins := Where(db.users, (x: Row<UserCols>) => x.id in linked);
      e := Pass;
    }

    /** Add a member unless the loaded member slice already lists that user. */
    method AddMember(db: Db, u: Row<UserCols>) returns (e: Outcome<Error>)
      modifies db`groupMembers
      ensures Listed(members, u.id) ==> e == Pass && db.groupMembers == old(db.groupMembers)
      ensures !Listed(members, u.id) && row.id == 0 ==>
        e == Fail(NilPrimaryKey) && db.groupMembers == old(db.groupMembers)
      ensures !Listed(members, u.id) && row.id != 0 ==>
        e == Pass && db.groupMembers == Link(old(db.groupMembers), row.id, {u.id})
    {
      var i := 0;
      while i < |members|
        invariant 0 <= i <= |members|
        invariant forall k :: 0 <= k < i ==> members[k].id != u.id
      {
        if members[i].id == u.id {
          return Pass;
        }
        i := i + 1;
      }
      if row.id == 0 {
        return Fail(NilPrimaryKey);
      }
      db.groupMembers := Link(db.groupMembers, row.id, {u.id});
      e := Pass;
    }

    /** Remove a member; unlike DelAdmin, the delete is issued whatever the loaded slice holds. */
    method DelMember(db: Db, u: Row<UserCols>) returns (e: Outcome<Error>)
      modifies db`groupMembers
      ensures row.id == 0 ==> e == Fail(NilPrimaryKey) && db.groupMembers == old(db.groupMembers)
      ensures row.id != 0 ==> e == Pass && db.groupMembers == Unlink(old(db.groupMembers), row.id, {u.id})
    {
      if row.id == 0 {
        return Fail(NilPrimaryKey);
      }
      db.groupMembers := Unlink(db.groupMembers, row.id, {u.id});
      e := Pass;
    }

    /** Load the members: the users linked as members, in key order. */
    method LoadMembers(db: Db) returns (e: Outcome<Error>)
      modifies this`members
      ensures row.id == 0 ==> e == Fail(NilPrimaryKey) && members == old(members)
      ensures row.id != 0 ==> e == Pass
      ensures row.id != 0 ==> forall x :: x in members <==>
        x in db.users && x.id in Linked(db.groupMembers, row.id)
    {
      if row.id == 0 {
        return Fail(NilPrimaryKey);
      }
      var linked := Linked(db.groupMembers, row.id);
      members := Where(db.users, (x: Row<UserCols>) => x.id in linked);
      e := Pass;
    }

    static method WriteRow(db: Db, id: Id, p: GroupPatch) returns (e: Outcome<Error>)
      requires db.Valid()
      modifies db`groups
      ensures db.Valid()
      ensures e.Fail? <==> Conflicts(old(db.groups), id, p)
      ensures e.Fail? ==> e.error == DuplicateKey && db.groups == old(db.groups)
      ensures e.Pass? ==> db.groups == Written(old(db.groups), id, p)
    {
      if Conflicts(db.groups, id, p) {
        return Fail(DuplicateKey);
      }
      WrittenKeepsValid(db, id, p);
      db.groups := Written(db.groups, id, p);
      e := Pass;
    }
  }

  /**
   * `NewGroup`: INSERT a group with the given name, description and owner. Group
   * names and owners are unique, so a second group of the same owner (or name) is
   * not created; the error is dropped and the returned group keeps key 0.
   */
  method NewGroup(db: Db, name: string, desc: string, owner: Id, now: nat) returns (group: Group)
    requires db.Valid()
    modifies db`groups, db`nextGroup
    ensures db.Valid() && fresh(group) && group.admins == [] && group.members == []
    ensures group.row.cols == GroupCols(name, desc, owner, 0, now, 0)
    ensures Taken(old(db.groups), GroupName, name, 0) || Taken(old(db.groups), GroupOwner, owner, 0) ==>
      group.row.id == 0 && db.groups == old(db.groups) && db.nextGroup == old(db.nextGroup)
    ensures !Taken(old(db.groups), GroupName, name, 0) && !Taken(old(db.groups), GroupOwner, owner, 0) ==>
      group.row.id == old(db.nextGroup) && db.groups == old(db.groups) + [group.row]
      && db.nextGroup == old(db.nextGroup) + 1
  {
    var cols := GroupCols(name, desc, owner, 0, now, 0);
    group := new Group.FromRow(Row(0, cols));
    if Taken(db.groups, GroupName, name, 0) || Taken(db.groups, GroupOwner, owner, 0) {
      return;
    }
    KeyedInsert(db.groups, db.nextGroup, cols);
    UniqueInsert(db.groups, GroupName, cols);
    UniqueInsert(db.groups, GroupOwner, cols);
    group.row := Row(db.nextGroup, cols);
    db.groups := db.groups + [group.row];
    db.nextGroup := db.nextGroup + 1;
  }

  /** `LoadGroupById`: the group with that key, or the zero value (key 0, status 0). */
  function LoadGroupById(db: Db, id: Id): (r: Row<GroupCols>)
    reads db
    requires db.Valid()
    ensures r.id != 0 <==> Find(db.groups, id).Some?
    ensures r.id != 0 ==> r.id == id && r in db.groups
    ensures r.id == 0 ==> r == Row(0, ZeroGroup) && forall i :: 0 <= i < |db.groups| ==> db.groups[i].id != id
  {
    OrZero(Find(db.groups, id), ZeroGroup)
  }

  /** `LoadGroupByMemberId`: the lowest-keyed group listing the user as a member, or the zero value. */
  function LoadGroupByMemberId(db: Db, memid: Id): (r: Row<GroupCols>)
    reads db
    requires db.Valid()
    ensures r.id == 0 <==> forall i :: 0 <= i < |db.groups| ==> memid !in Linked(db.groupMembers, db.groups[i].id)
    ensures r.id == 0 ==> r == Row(0, ZeroGroup)
    ensures r.id != 0 ==> r in db.groups && memid in Linked(db.groupMembers, r.id)
    ensures r.id != 0 ==> forall i :: 0 <= i < |db.groups| && db.groups[i].id < r.id ==>
      memid !in Linked(db.groupMembers, db.groups[i].id)
  {
    var members := db.groupMembers;
    var found := FirstWhere(db.groups, (g: Row<GroupCols>) => memid in Linked(members, g.id));
    if found.Some? then
      var i :| 0 <= i < |db.groups| && db.groups[i] == found.value && memid in Linked(members, db.groups[i].id)
        && forall j :: 0 <= j < i ==> memid !in Linked(members, db.groups[j].id);
      BelowKey(db.groups, db.nextGroup, i);
      found.value
    else
      Row(0, ZeroGroup)
  }

  /** `LoadGroupByAdminId`: every group listing the user as an admin. */
  function LoadGroupByAdminId(db: Db, adminid: Id): (r: seq<Row<GroupCols>>)
    reads db
    ensures forall x :: x in r <==> x in db.groups && adminid in Linked(db.groupAdmins, x.id)
  {
    var admins := db.groupAdmins;
    Where(db.groups, (g: Row<GroupCols>) => adminid in Linked(admins, g.id))
  }

  /** `LoadGroupByOwnerId`: the owner's active (status 0) groups. */
  function LoadGroupByOwnerId(db: Db, ownerid: Id): (r: seq<Row<GroupCols>>)
    reads db
    ensures forall x :: x in r <==> x in db.groups && x.cols.ownerId == ownerid && x.cols.status == 0
  {
    Where(db.groups, (g: Row<GroupCols>) => g.cols.ownerId == ownerid && g.cols.status == 0)
  }

  /** `LoadGroups`: every active (status 0) group. */
  function LoadGroups(db: Db): (r: seq<Row<GroupCols>>)
    reads db
    ensures forall x :: x in r <==> x in db.groups && x.cols.status == 0
  {
    Where(db.groups, (g: Row<GroupCols>) => g.cols.status == 0)
  }
}
