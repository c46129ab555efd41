/** Roles: named grant sets over resources (the role_resources join table). */
module Roles {
  import opened Wrappers
  import opened Text
  import opened Tables
  import opened Store
  import Resources

  /** The columns one `Model(r).Update(...)` call names. */
  datatype RolePatch = RolePatch(name: Option<string>, desc: Option<string>, status: Option<u32>)

  const Untouched := RolePatch(None, None, None)

  function Patched(c: RoleCols, p: RolePatch): RoleCols
  {
    RoleCols(if p.name.Some? then p.name.value else c.name,
             if p.desc.Some? then p.desc.value else c.desc,
             if p.status.Some? then p.status.value else c.status)
  }

  /**
   * The roles table after the UPDATE: the row keyed `id`, if stored, takes the named
   * columns. A receiver with key 0 adds no key condition, so every row takes them.
   */
  function Written(t: seq<Row<RoleCols>>, id: Id, p: RolePatch): seq<Row<RoleCols>>
  {
    if id == 0 then Every(t, (c: RoleCols) => Patched(c, p))
    else
      match Find(t, id)
      case None => t
      case Some(x) => Put(t, id, Patched(x.cols, p))
  }

  /** The tokens of a comma-separated id list: trimmed, then cut at every comma. */
  function CsvTokens(s: string): seq<string>
  {
    Split(TrimSpace(s), ',')
  }

  /** The grant set `UpdateResource(resids)` installs: the resources the list names. */
  function CsvGrants(resources: seq<Row<ResourceCols>>, resids: string): set<Id>
  {
    Ids(Resolve(resources, CsvTokens(resids)))
  }

  /** A resource id is granted by the list exactly when it is stored and one comma-separated token spells it. */
  lemma CsvGrantsExactly(resources: seq<Row<ResourceCols>>, resids: string, id: Id)
    ensures id in CsvGrants(resources, resids) <==>
      Find(resources, id).Some? &&
      exists k :: 0 <= k < |CsvTokens(resids)| && ParseUint(CsvTokens(resids)[k]) == Some(id)
  {
    ResolveIds(resources, CsvTokens(resids), id);
  }

  /** An empty list, or one whose tokens all fail to parse or resolve, leaves no grant at all. */
  lemma NoValidTokenNoGrants(resources: seq<Row<ResourceCols>>, resids: string)
    requires forall k :: 0 <= k < |CsvTokens(resids)| ==>
      ParseUint(CsvTokens(resids)[k]).None? || Find(resources, ParseUint(CsvTokens(resids)[k]).value).None?
    ensures CsvGrants(resources, resids) == {}
  {
    NothingResolves(resources, CsvTokens(resids));
  }

  /** The empty list is one empty token, which does not parse: it clears the grants. */
  lemma EmptyListNoGrants(resources: seq<Row<ResourceCols>>)
    ensures CsvGrants(resources, "") == {}
  {
    assert CsvTokens("") == [""];
    NoValidTokenNoGrants(resources, "");
  }

  /** Replacing with the same list twice leaves the same grants as replacing once. */
  lemma ReplaceIdempotent(resources: seq<Row<ResourceCols>>, a: Assoc, role: Id, resids: string)
    ensures var once := Relink(a, role, CsvGrants(resources, resids));
      Relink(once, role, CsvGrants(resources, resids)) == once
  {
  }

  class Role {
    var row: Row<RoleCols>
    /** The loaded grants. */
    var resources: seq<Row<ResourceCols>>

    constructor FromRow(r: Row<RoleCols>)
      ensures row == r && resources == []
    {
      row := r;
      resources := [];
    }

    method UpdateName(db: Db, name: string) returns (e: Outcome<Error>)
      requires db.Valid()
      modifies this`row, db`roles
      ensures db.Valid() && e == Pass
      ensures row == old(row).(cols := old(row).cols.(name := name))
      ensures db.roles == Written(old(db.roles), row.id, Untouched.(name := Some(name)))
    {
      row := row.(cols := row.cols.(name := name));
      WriteRow(db, row.id, Untouched.(name := Some(name)));
      e := Pass;
    }

    method UpdateDesc(db: Db, desc: string) returns (e: Outcome<Error>)
      requires db.Valid()
      modifies this`row, db`roles
      ensures db.Valid() && e == Pass
      ensures row == old(row).(cols := old(row).cols.(desc := desc))
      ensures db.roles == Written(old(db.roles), row.id, Untouched.(desc := Some(desc)))
    {
      row := row.(cols := row.cols.(desc := desc));
      WriteRow(db, row.id, Untouched.(desc := Some(desc)));
      e := Pass;
    }

    method UpdateStatus(db: Db, status: u32) returns (e: Outcome<Error>)
      requires db.Valid()
      modifies this`row, db`roles
      ensures db.Valid() && e == Pass
      ensures row == old(row).(cols := old(row).cols.(status := status))
      ensures db.roles == Written(old(db.roles), row.id, Untouched.(status := Some(status)))
    {
      row := row.(cols := row.cols.(status := status));
      WriteRow(db, row.id, Untouched.(status := Some(status)));
      e := Pass;
    }

    /** Grant one resource; an id that does not resolve is an error. No duplicate check is made. */
    method AddResource(db: Db, resid: Id) returns (e: Outcome<Error>)
      requires db.Valid()
      modifies db`roleResources
      ensures Find(db.resources, resid).None? ==>
        e == Fail(ResourceIdError) && db.roleResources == old(db.roleResources)
      ensures Find(db.resources, resid).Some? && row.id == 0 ==>
        e == Fail(NilPrimaryKey) && db.roleResources == old(db.roleResources)
      ensures Find(db.resources, resid).Some? && row.id != 0 ==>
        e == Pass && db.roleResources == Link(old(db.roleResources), row.id, {resid})
    {
      var res := Resources.LoadResource(db, resid);
      if res.id == 0 {
        return Fail(ResourceIdError);
      }
      if row.id == 0 {
        return Fail(NilPrimaryKey);
      }
      db.roleResources := Link(db.roleResources, row.id, {res.id});
      e := Pass;
    }

    /** Revoke one resource; an id that does not resolve is an error. */
    method DelResource(db: Db, resid: Id) returns (e: Outcome<Error>)
      requires db.Valid()
      modifies db`roleResources
      ensures Find(db.resources, resid).None? ==>
        e == Fail(ResourceIdError) && db.roleResources == old(db.roleResources)
      ensures Find(db.resources, resid).Some? && row.id == 0 ==>
        e == Fail(NilPrimaryKey) && db.roleResources == old(db.roleResources)
      ensures Find(db.resources, resid).Some? && row.id != 0 ==>
        e == Pass && db.roleResources == Unlink(old(db.roleResources), row.id, {resid})
    {
      var res := Resources.LoadResource(db, resid);
      if res.id == 0 {
        return Fail(ResourceIdError);
      }
      if row.id == 0 {
        return Fail(NilPrimaryKey);
      }
      db.roleResources := Unlink(db.roleResources, row.id, {res.id});
      e := Pass;
    }

    /** Drop every grant of this role; no resource row is touched. */
    method ClearResource(db: Db) returns (e: Outcome<Error>)
      modifies db`roleResources
      ensures row.id == 0 ==> e == Fail(NilPrimaryKey) && db.roleResources == old(db.roleResources)
      ensures row.id != 0 ==> e == Pass && db.roleResources == Relink(old(db.roleResources), row.id, {})
    {
      if row.id == 0 {
        return Fail(NilPrimaryKey);
      }
      db.roleResources := Relink(db.roleResources, row.id, {});
      e := Pass;
    }

    /**
     * Replace the grant set by the resources a comma-separated id list names;
     * tokens that do not parse or do not resolve are skipped silently.
     */
    method UpdateResource(db: Db, resids: string) returns (e: Outcome<Error>)
      requires db.Valid()
      modifies db`roleResources
      ensures row.id == 0 ==> e == Fail(NilPrimaryKey) && db.roleResources == old(db.roleResources)
      ensures row.id != 0 ==> e == Pass
      ensures row.id != 0 ==>
        db.roleResources == Relink(old(db.roleResources), row.id, CsvGrants(db.resources, resids))
    {
      var tokens := Split(TrimSpace(resids), ',');
      var list: seq<Row<ResourceCols>> := [];
      var i := 0;
      while i < |tokens|
        invariant 0 <= i <= |tokens|
        invariant list == Resolve(db.resources, tokens[..i])
        invariant db.roleResources == old(db.roleResources)
      {
        var id := ParseUint(tokens[i]);
        if id.Some? {
          var res := Resources.LoadResource(db, id.value);
          if res.id != 0 {
            list := list + [res];
          }
        }
        ResolveNext(db.resources, tokens, i);
        i := i + 1;
      }
      assert tokens[..|tokens|] == tokens;
      if row.id == 0 {
        return Fail(NilPrimaryKey);
      }
      db.roleResources := Relink(db.roleResources, row.id, Ids(list));
      e := Pass;
    }

    /** Load the grants: the resources this role is linked to, in key order. */
    method LoadResource(db: Db) returns (e: Outcome<Error>)
      modifies this`resources
      ensures row.id == 0 ==> e == Fail(NilPrimaryKey) && resources == old(resources)
      ensures row.id != 0 ==> e == Pass
      ensures row.id != 0 ==> forall x :: x in resources <==>
        x in db.resources && x.id in Linked(db.roleResources, row.id)
    {
      if row.id == 0 {
        return Fail(NilPrimaryKey);
      }
      var granted := Linked(db.roleResources, row.id);
      resources := Where(db.resources, (x: Row<ResourceCols>) => x.id in granted);
      e := Pass;
    }

    static method WriteRow(db: Db, id: Id, p: RolePatch)
      requires db.Valid()
      modifies db`roles
      ensures db.Valid() && db.roles == Written(old(db.roles), id, p)
    {
      if id == 0 {
        KeyedEvery(db.roles, db.nextRole, (c: RoleCols) => Patched(c, p));
        db.roles := Written(db.roles, id, p);
        return;
      }
      match Find(db.roles, id)
      case None =>
      case Some(x) =>
        KeyedPut(db.roles, db.nextRole, id, Patched(x.cols, p));
        db.roles := Put(db.roles, id, Patched(x.cols, p));
    }
  }

  /** `LoadRole`: the role with that key, or the zero value (key 0) when there is none. */
  function LoadRole(db: Db, id: Id): (r: Row<RoleCols>)
    reads db
    requires db.Valid()
    ensures r.id != 0 <==> Find(db.roles, id).Some?
    ensures r.id != 0 ==> r.id == id && r in db.roles
    ensures r.id == 0 ==> r == Row(0, ZeroRole) && forall i :: 0 <= i < |db.roles| ==> db.roles[i].id != id
  {
    OrZero(Find(db.roles, id), ZeroRole)
  }

  /** `LoadRoles`: the active (status 0) roles, in key order. */
  function LoadRoles(db: Db): (r: seq<Row<RoleCols>>)
    reads db
    ensures forall x :: x in r <==> x in db.roles && x.cols.status == 0
  {
    Where(db.roles, (x: Row<RoleCols>) => x.cols.status == 0)
  }

  /** `NewRole`: INSERT the role (its name is not unique), then apply a non-empty grant list. */
  method NewRole(db: Db, name: string, desc: string, status: u32, resids: string) returns (role: Role)
    requires db.Valid()
    modifies db`roles, db`nextRole, db`roleResources
    ensures db.Valid() && fresh(role) && role.resources == []
    ensures role.row == Row(old(db.nextRole), RoleCols(name, desc, status))
    ensures db.roles == old(db.roles) + [role.row] && db.nextRole == old(db.nextRole) + 1
    ensures resids == "" ==> db.roleResources == old(db.roleResources)
    ensures resids != "" ==>
      db.roleResources == Relink(old(db.roleResources), role.row.id, CsvGrants(db.resources, resids))
  {
    var cols := RoleCols(name, desc, status);
    KeyedInsert(db.roles, db.nextRole, cols);
    role := new Role.FromRow(Row(db.nextRole, cols));
    db.roles := db.roles + [role.row];
    db.nextRole := db.nextRole + 1;
    if resids != "" {
      var _ := role.UpdateResource(db, resids);
    }
  }
}
