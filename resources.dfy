/**
 * Resources: nodes of the resource tree. A child points at its parent through the
 * `parent_id` column. The `SubResources` association is modelled as the has-many
 * relation over `parent_id` that its tag intends; the tag as written does not set
 * that relation up (see README, "Left out").
 */
module Resources {
  import opened Wrappers
  import opened Tables
  import opened Store

  /** The columns one `Model(r).Updates(...)` call names, with their new values. */
  datatype ResourcePatch = ResourcePatch(
    name: Option<string>, resClass: Option<string>, attr: Option<string>,
    resType: Option<u32>, parentId: Option<Id>, order: Option<u32>, status: Option<u32>)

  const Untouched := ResourcePatch(None, None, None, None, None, None, None)

  function Or<T>(o: Option<T>, d: T): T { if o.Some? then o.value else d }

  function Patched(c: ResourceCols, p: ResourcePatch): ResourceCols
  {
    ResourceCols(Or(p.name, c.name), Or(p.resClass, c.resClass), Or(p.attr, c.attr),
                 Or(p.resType, c.resType), Or(p.parentId, c.parentId),
                 Or(p.order, c.order), Or(p.status, c.status))
  }

  /**
   * The table after the UPDATE: the row keyed `id`, if stored, takes the named
   * columns. A receiver with key 0 adds no key condition, so every row takes them.
   */
  function Written(t: seq<Row<ResourceCols>>, id: Id, p: ResourcePatch): seq<Row<ResourceCols>>
  {
    if id == 0 then Every(t, (c: ResourceCols) => Patched(c, p))
    else
      match Find(t, id)
      case None => t
      case Some(x) => Put(t, id, Patched(x.cols, p))
  }

  /**
   * The write would give two rows the same name, which the unique index refuses:
   * the row keyed `id` is stored and another row already has the name, or, with
   * key 0, at least two rows get it. An UPDATE whose key matches no row touches
   * nothing, so no index is checked.
   */
  predicate Conflicts(t: seq<Row<ResourceCols>>, id: Id, p: ResourcePatch)
  {
    p.name.Some? && if id == 0 then |t| >= 2 else Find(t, id).Some? && Taken(t, ResourceName, p.name.value, id)
  }

  /** An UPDATE by a nonzero key that no row has matches nothing: no error and no change. */
  lemma UnstoredKeyWritesNothing(t: seq<Row<ResourceCols>>, id: Id, p: ResourcePatch)
    requires id != 0 && Find(t, id).None?
    ensures !Conflicts(t, id, p) && Written(t, id, p) == t
  {
  }

  /** Renaming through key 0 gives every row the one name, which two rows cannot share. */
  lemma ZeroKeyRenameCollides(t: seq<Row<ResourceCols>>, p: ResourcePatch)
    requires p.name.Some? && |t| >= 2
    ensures !UniqueBy(Written(t, 0, p), ResourceName)
  {
    EveryCollides(t, ResourceName, (c: ResourceCols) => Patched(c, p), p.name.value);
  }

  /**
   * An UPDATE keeps every key and changes exactly the columns it names, in the one
   * row keyed `id`, or in every row when `id` is 0.
   */
  lemma WrittenChangesOnlyNamed(t: seq<Row<ResourceCols>>, next: Id, id: Id, p: ResourcePatch, i: nat)
    requires Keyed(t, next) && i < |t|
    ensures |Written(t, id, p)| == |t| && Written(t, id, p)[i].id == t[i].id
    ensures id != 0 && t[i].id != id ==> Written(t, id, p)[i] == t[i]
    ensures var c, w := t[i].cols, Written(t, id, p)[i].cols;
      id == 0 || t[i].id == id ==>
        && w.name == Or(p.name, c.name) && w.resClass == Or(p.resClass, c.resClass)
        && w.attr == Or(p.attr, c.attr) && w.resType == Or(p.resType, c.resType)
        && w.parentId == Or(p.parentId, c.parentId) && w.order == Or(p.order, c.order)
        && w.status == Or(p.status, c.status)
  {
    if id != 0 && t[i].id == id {
      var x := Find(t, id).value;
      var j :| 0 <= j < |t| && t[j] == x;
      KeysDistinct(t, next, i, j);
    }
  }

  lemma WrittenKeepsValid(db: Db, id: Id, p: ResourcePatch)
    requires db.Valid() && !Conflicts(db.resources, id, p)
    ensures Keyed(Written(db.resources, id, p), db.nextResource)
    ensures UniqueBy(Written(db.resources, id, p), ResourceName)
  {
    var t := db.resources;
    if id == 0 {
      KeyedEvery(t, db.nextResource, (c: ResourceCols) => Patched(c, p));
      if p.name.None? {
        UniqueEvery(t, ResourceName, (c: ResourceCols) => Patched(c, p));
      }
      return;
    }
    match Find(t, id)
    case None =>
    case Some(x) =>
      KeyedPut(t, db.nextResource, id, Patched(x.cols, p));
      forall i | 0 <= i < |t| && t[i].id != id
        ensures ResourceName(t[i].cols) != ResourceName(Patched(x.cols, p))
      {
        if p.name.None? {
          var j :| 0 <= j < |t| && t[j] == x;
          ColsDistinct(t, ResourceName, i, j);
        }
      }
      UniquePut(t, db.nextResource, ResourceName, id, Patched(x.cols, p));
  }

  /** The children of `parent`, in key order. */
  function Children(t: seq<Row<ResourceCols>>, parent: Id): (r: seq<Row<ResourceCols>>)
    ensures forall x :: x in r <==> x in t && x.cols.parentId == parent
  {
    Where(t, (x: Row<ResourceCols>) => x.cols.parentId == parent)
  }

  /** Every child of `parent` is detached (its parent_id set to 0); no row is removed. */
  function Orphaned(t: seq<Row<ResourceCols>>, parent: Id): (r: seq<Row<ResourceCols>>)
    ensures |r| == |t|
    ensures forall i :: 0 <= i < |t| ==> r[i].id == t[i].id && r[i].cols.name == t[i].cols.name
    ensures forall i :: 0 <= i < |t| ==>
      r[i].cols == if t[i].cols.parentId == parent then t[i].cols.(parentId := 0) else t[i].cols
  {
    seq(|t|, i requires 0 <= i < |t| =>
      if t[i].cols.parentId == parent then Row(t[i].id, t[i].cols.(parentId := 0)) else t[i])
  }

  /** Detaching children keeps every key and every name, so the table stays valid. */
  lemma OrphanedKeepsValid(t: seq<Row<ResourceCols>>, next: Id, parent: Id)
    requires Keyed(t, next) && UniqueBy(t, ResourceName)
    ensures Keyed(Orphaned(t, parent), next) && UniqueBy(Orphaned(t, parent), ResourceName)
  {
    var r := Orphaned(t, parent);
    forall i | 0 <= i < |r|
      ensures KeyAt(r, i) == KeyAt(t, i) && ColAt(r, ResourceName, i) == ColAt(t, ResourceName, i)
    {
    }
  }

  class Resource {
    var row: Row<ResourceCols>
    /** The loaded children; `None` is Go's nil slice. */
    var subResources: Option<seq<Row<ResourceCols>>>

    constructor FromRow(r: Row<ResourceCols>)
      ensures row == r && subResources == None
    {
      row := r;
      subResources := None;
    }

    /** `Update(map)`: one UPDATE of the named columns of this row; a duplicate name is refused. */
    method Update(db: Db, p: ResourcePatch) returns (e: Outcome<Error>)
      requires db.Valid()
      modifies db`resources
      ensures db.Valid()
      ensures e.Fail? <==> Conflicts(old(db.resources), row.id, p)
      ensures e.Fail? ==> e.error == DuplicateKey && db.resources == old(db.resources)
      ensures e.Pass? ==> db.resources == Written(old(db.resources), row.id, p)
    {
      if Conflicts(db.resources, row.id, p) {
        return Fail(DuplicateKey);
      }
      WrittenKeepsValid(db, row.id, p);
      db.resources := Written(db.resources, row.id, p);
      e := Pass;
    }

    method UpdateName(db: Db, name: string) returns (e: Outcome<Error>)
      requires db.Valid()
      modifies this`row, db`resources
      ensures db.Valid()
      ensures row == old(row).(cols := old(row).cols.(name := name))
      ensures e.Fail? <==> Conflicts(old(db.resources), row.id, Untouched.(name := Some(name)))
      ensures e.Fail? ==> e.error == DuplicateKey && db.resources == old(db.resources)
      ensures e.Pass? ==> db.resources == Written(old(db.resources), row.id, Untouched.(name := Some(name)))
    {
      row := row.(cols := row.cols.(name := name));
      e := Update(db, Untouched.(name := Some(name)));
    }

    method UpdateClass(db: Db, resClass: string) returns (e: Outcome<Error>)
      requires db.Valid()
      modifies this`row, db`resources
      ensures db.Valid()
      ensures row == old(row).(cols := old(row).cols.(resClass := resClass))
      ensures e == Pass
      ensures db.resources == Written(old(db.resources), row.id, Untouched.(resClass := Some(resClass)))
    {
      row := row.(cols := row.cols.(resClass := resClass));
      e := Update(db, Untouched.(resClass := Some(resClass)));
    }

    method UpdateAttr(db: Db, attr: string) returns (e: Outcome<Error>)
      requires db.Valid()
      modifies this`row, db`resources
      ensures db.Valid()
      ensures row == old(row).(cols := old(row).cols.(attr := attr))
      ensures e == Pass
      ensures db.resources == Written(old(db.resources), row.id, Untouched.(attr := Some(attr)))
    {
      row := row.(cols := row.cols.(attr := attr));
      e := Update(db, Untouched.(attr := Some(attr)));
    }

    method UpdateType(db: Db, resType: u32) returns (e: Outcome<Error>)
      requires db.Valid()
      modifies this`row, db`resources
      ensures db.Valid()
      ensures row == old(row).(cols := old(row).cols.(resType := resType))
      ensures e == Pass
      ensures db.resources == Written(old(db.resources), row.id, Untouched.(resType := Some(resType)))
    {
      row := row.(cols := row.cols.(resType := resType));
      e := Update(db, Untouched.(resType := Some(resType)));
    }

    method UpdateOrder(db: Db, order: u32) returns (e: Outcome<Error>)
      requires db.Valid()
      modifies this`row, db`resources
      ensures db.Valid()
      ensures row == old(row).(cols := old(row).cols.(order := order))
      ensures e == Pass
      ensures db.resources == Written(old(db.resources), row.id, Untouched.(order := Some(order)))
    {
      row := row.(cols := row.cols.(order := order));
      e := Update(db, Untouched.(order := Some(order)));
    }

    method UpdateStatus(db: Db, status: u32) returns (e: Outcome<Error>)
      requires db.Valid()
      modifies this`row, db`resources
      ensures db.Valid()
      ensures row == old(row).(cols := old(row).cols.(status := status))
      ensures e == Pass
      ensures db.resources == Written(old(db.resources), row.id, Untouched.(status := Some(status)))
    {
      row := row.(cols := row.cols.(status := status));
      e := Update(db, Untouched.(status := Some(status)));
    }

    /**
     * Attach `child` under this resource. Under the intended has-many relation the append saves the child's
     * in-memory row with its parent_id set to this key: a child with key 0 is
     * INSERTed under the next key, a stored child is overwritten; a name another
     * resource holds is refused. The caller's `child` object is not changed.
     */
    method AddSubresource(db: Db, child: Resource) returns (e: Outcome<Error>)
      requires db.Valid()
      modifies db`resources, db`nextResource
      ensures db.Valid()
      ensures row.id == 0 ==>
        e == Fail(NilPrimaryKey) && db.resources == old(db.resources) && db.nextResource == old(db.nextResource)
      ensures var c := child.row.cols.(parentId := row.id);
        row.id != 0 && child.row.id == 0 ==>
          if Taken(old(db.resources), ResourceName, c.name, 0)
          then e == Fail(DuplicateKey) && db.resources == old(db.resources) && db.nextResource == old(db.nextResource)
          else (e == Pass && db.resources == old(db.resources) + [Row(old(db.nextResource), c)]
            && db.nextResource == old(db.nextResource) + 1)
      ensures row.id != 0 && child.row.id != 0 ==> db.nextResource == old(db.nextResource)
      ensures var c := child.row.cols.(parentId := row.id);
        row.id != 0 && child.row.id != 0 ==>
          if Find(old(db.resources), child.row.id).None? then e == Pass && db.resources == old(db.resources)
          else if Taken(old(db.resources), ResourceName, c.name, child.row.id)
          then e == Fail(DuplicateKey) && db.resources == old(db.resources)
          else e == Pass && db.resources == Put(old(db.resources), child.row.id, c)
    {
      if row.id == 0 {
        return Fail(NilPrimaryKey);
      }
      var c := child.row.cols.(parentId := row.id);
      if child.row.id == 0 {
        if Taken(db.resources, ResourceName, c.name, 0) {
          return Fail(DuplicateKey);
        }
        KeyedInsert(db.resources, db.nextResource, c);
        UniqueInsert(db.resources, ResourceName, c);
        db.resources := db.resources + [Row(db.nextResource, c)];
        db.nextResource := db.nextResource + 1;
        return Pass;
      }
      if Find(db.resources, child.row.id).None? {
        return Pass;
      }
      if Taken(db.resources, ResourceName, c.name, child.row.id) {
        return Fail(DuplicateKey);
      }
      KeyedPut(db.resources, db.nextResource, child.row.id, c);
      UniquePut(db.resources, db.nextResource, ResourceName, child.row.id, c);
      db.resources := Put(db.resources, child.row.id, c);
      e := Pass;
    }

    /** Detach `child`, if it is stored as a child of this resource; no row is removed. */
    method DelSubresource(db: Db, child: Resource) returns (e: Outcome<Error>)
      requires db.Valid()
      modifies db`resources
      ensures db.Valid()
      ensures row.id == 0 ==> e == Fail(NilPrimaryKey) && db.resources == old(db.resources)
      ensures row.id != 0 ==> e == Pass
      ensures row.id != 0 ==> (db.resources ==
        var stored := Find(old(db.resources), child.row.id);
        if stored.Some? && stored.value.cols.parentId == row.id
        then Written(old(db.resources), child.row.id, Untouched.(parentId := Some(0)))
        else old(db.resources))
    {
      if row.id == 0 {
        return Fail(NilPrimaryKey);
      }
      var stored := Find(db.resources, child.row.id);
      if stored.Some? && stored.value.cols.parentId == row.id {
        e := UpdateRow(db, child.row.id, Untouched.(parentId := Some(0)));
      } else {
        e := Pass;
      }
    }

    /** Detach every child of this resource; every row stays, only parent_id columns change. */
    method ClearSubresource(db: Db) returns (e: Outcome<Error>)
      requires db.Valid()
      modifies db`resources
      ensures db.Valid()
      ensures row.id == 0 ==> e == Fail(NilPrimaryKey) && db.resources == old(db.resources)
      ensures row.id != 0 ==> e == Pass && db.resources == Orphaned(old(db.resources), row.id)
    {
      if row.id == 0 {
        return Fail(NilPrimaryKey);
      }
      OrphanedKeepsValid(db.resources, db.nextResource, row.id);
      db.resources := Orphaned(db.resources, row.id);
      e := Pass;
    }

    /** Load the children: the slice is made non-nil first, then filled from the table. */
    method LoadSubresource(db: Db) returns (e: Outcome<Error>)
      modifies this`subResources
      ensures subResources.Some?
      ensures row.id == 0 ==> (e == Fail(NilPrimaryKey)
        && subResources == if old(subResources).None? then Some([]) else old(subResources))
      ensures row.id != 0 ==> e == Pass && subResources == Some(Children(db.resources, row.id))
    {
      if subResources.None? {
        subResources := Some([]);
      }
      if row.id == 0 {
        return Fail(NilPrimaryKey);
      }
      subResources := Some(Children(db.resources, row.id));
      e := Pass;
    }

    /** One UPDATE of a parent_id column; a parent_id is never a unique column. */
    static method UpdateRow(db: Db, id: Id, p: ResourcePatch) returns (e: Outcome<Error>)
      requires db.Valid() && p.name.None?
      modifies db`resources
      ensures db.Valid() && e == Pass
      ensures db.resources == Written(old(db.resources), id, p)
    {
      WrittenKeepsValid(db, id, p);
      db.resources := Written(db.resources, id, p);
      e := Pass;
    }
  }

  /**
   * `NewResource`: build the row from the seven arguments and INSERT it. A name
   * already in use makes the insert fail; the error is dropped and the returned
   * resource keeps key 0.
   */
  method NewResource(db: Db, name: string, resClass: string, attr: string,
                     resType: u32, order: u32, status: u32, parentId: Id)
    returns (res: Resource)
    requires db.Valid()
    modifies db`resources, db`nextResource
    ensures db.Valid() && fresh(res) && res.subResources == None
    ensures res.row.cols == ResourceCols(name, resClass, attr, resType, parentId, order, status)
    ensures Taken(old(db.resources), ResourceName, name, 0) ==>
      res.row.id == 0 && db.resources == old(db.resources) && db.nextResource == old(db.nextResource)
    ensures !Taken(old(db.resources), ResourceName, name, 0) ==>
      res.row.id == old(db.nextResource) && db.resources == old(db.resources) + [res.row]
      && db.nextResource == old(db.nextResource) + 1
  {
    var cols := ResourceCols(name, resClass, attr, resType, parentId, order, status);
    res := new Resource.FromRow(Row(0, cols));
    if Taken(db.resources, ResourceName, name, 0) {
      return;
    }
    KeyedInsert(db.resources, db.nextResource, cols);
    UniqueInsert(db.resources, ResourceName, cols);
    res.row := Row(db.nextResource, cols);
    db.resources := db.resources + [res.row];
    db.nextResource := db.nextResource + 1;
  }

  /** `LoadResource`: the row with that key, or the zero value (key 0) when there is none. */
  function LoadResource(db: Db, id: Id): (r: Row<ResourceCols>)
    reads db
    requires db.Valid()
    ensures r.id != 0 <==> Find(db.resources, id).Some?
    ensures r.id != 0 ==> r.id == id && r in db.resources
    ensures r.id == 0 ==> r == Row(0, ZeroResource) && forall i :: 0 <= i < |db.resources| ==> db.resources[i].id != id
  {
    OrZero(Find(db.resources, id), ZeroResource)
  }

  /** `LoadResources`: the active (status 0) resources, in key order. */
  function LoadResources(db: Db): (r: seq<Row<ResourceCols>>)
    reads db
    ensures forall x :: x in r <==> x in db.resources && x.cols.status == 0
  {
    Where(db.resources, (x: Row<ResourceCols>) => x.cols.status == 0)
  }
}
