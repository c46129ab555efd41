/**
 * The storage collaborator, abstractly: a table is the sequence of its rows in
 * ascending primary-key order (the order gorm's `First` and `Find` see), and a
 * many-to-many association is a map from the owning row's key to the set of keys
 * it is linked to (one join-table row per pair).
 */
module Tables {
  import opened Wrappers

  /** A primary key; 0 is never assigned and marks a "not found" zero value. */
  type Id = nat

  datatype Row<C> = Row(id: Id, cols: C)

  /** The key of the `i`-th row; it names the pairs the ordering of keys is stated over. */
  ghost function KeyAt<C>(t: seq<Row<C>>, i: nat): Id
    requires i < |t|
  {
    t[i].id
  }

  /** The unique column of the `i`-th row. */
  ghost function ColAt<C, K>(t: seq<Row<C>>, key: C -> K, i: nat): K
    requires i < |t|
  {
    key(t[i].cols)
  }

  /** Keys are positive auto-increment values below `next`, strictly ascending along the table. */
  ghost predicate Keyed<C>(t: seq<Row<C>>, next: Id) {
    && next > 0
    && (forall i :: 0 <= i < |t| ==> 0 < t[i].id < next)
    && (forall i, j {:trigger KeyAt(t, i), KeyAt(t, j)} :: 0 <= i < j < |t| ==> KeyAt(t, i) < KeyAt(t, j))
  }

  /** A unique index on the column `key` picks out. */
  ghost predicate UniqueBy<C, K>(t: seq<Row<C>>, key: C -> K) {
    forall i, j {:trigger ColAt(t, key, i), ColAt(t, key, j)} :: 0 <= i < j < |t| ==> ColAt(t, key, i) != ColAt(t, key, j)
  }

  /** Some row other than the one keyed `except` already holds `k` in the column `key` picks out. */
  predicate Taken<C(==), K(==)>(t: seq<Row<C>>, key: C -> K, k: K, except: Id) {
    exists i :: 0 <= i < |t| && t[i].id != except && key(t[i].cols) == k
  }

  /** `Where("id = ?", id).First(...)`: the row with that key, if any. */
  function Find<C(==)>(t: seq<Row<C>>, id: Id): (r: Option<Row<C>>)
    ensures r.Some? ==> r.value in t && r.value.id == id
    ensures r.None? <==> forall i :: 0 <= i < |t| ==> t[i].id != id
  {
    if t == [] then None else if t[0].id == id then Some(t[0]) else Find(t[1..], id)
  }

  /** `Where(p).First(...)`: the first row, in key order, that satisfies `p`. */
  function FirstWhere<C(==)>(t: seq<Row<C>>, p: Row<C> -> bool): (r: Option<Row<C>>)
    ensures r.None? <==> forall i :: 0 <= i < |t| ==> !p(t[i])
    ensures r.Some? ==> exists i :: 0 <= i < |t| && t[i] == r.value && p(t[i])
                          && forall j :: 0 <= j < i ==> !p(t[j])
  {
    if t == [] then None
    else if p(t[0]) then Some(t[0])
    else
      var r := FirstWhere(t[1..], p);
      if r.Some? then
        var i :| 0 <= i < |t[1..]| && t[1..][i] == r.value && p(t[1..][i])
                  && forall j :: 0 <= j < i ==> !p(t[1..][j]);
        assert t[i + 1] == r.value;
        r
      else r
  }

  /** gorm's zero-value convention: the found row, or a row with key 0 and zero columns. */
  function OrZero<C(==)>(r: Option<Row<C>>, zero: C): Row<C>
  {
    if r.Some? then r.value else Row(0, zero)
  }

  /** Overwrite the columns of the row keyed `id` (an UPDATE ... WHERE id = ?). */
  function Put<C(==)>(t: seq<Row<C>>, id: Id, c: C): (r: seq<Row<C>>)
    ensures |r| == |t|
    ensures forall i :: 0 <= i < |t| ==> r[i] == if t[i].id == id then Row(id, c) else t[i]
  {
    seq(|t|, i requires 0 <= i < |t| => if t[i].id == id then Row(id, c) else t[i])
  }

  /**
   * An UPDATE with no key condition, which is what gorm issues for `Model(x)` when
   * `x` has key 0: every row is rewritten by `f`, and every key stays.
   */
  function Every<C>(t: seq<Row<C>>, f: C -> C): (r: seq<Row<C>>)
    ensures |r| == |t|
    ensures forall i :: 0 <= i < |t| ==> r[i] == Row(t[i].id, f(t[i].cols))
  {
    seq(|t|, i requires 0 <= i < |t| => Row(t[i].id, f(t[i].cols)))
  }

  /** Looking a key up after an unconditioned UPDATE finds the same row, rewritten. */
  lemma {:induction false} FindEvery<C>(t: seq<Row<C>>, f: C -> C, id: Id)
    ensures Find(Every(t, f), id) == if Find(t, id).Some? then Some(Row(id, f(Find(t, id).value.cols))) else None
  {
    if t != [] {
      assert Every(t, f)[1..] == Every(t[1..], f);
      FindEvery(t[1..], f, id);
    }
  }

  lemma KeyedEvery<C>(t: seq<Row<C>>, next: Id, f: C -> C)
    requires Keyed(t, next)
    ensures Keyed(Every(t, f), next)
  {
    var r := Every(t, f);
    forall i, j | 0 <= i < j < |r| ensures KeyAt(r, i) < KeyAt(r, j) {
      assert KeyAt(r, i) == KeyAt(t, i) && KeyAt(r, j) == KeyAt(t, j);
    }
  }

  /** An unconditioned UPDATE that leaves the unique column of every row as it was keeps the index. */
  lemma UniqueEvery<C, K>(t: seq<Row<C>>, key: C -> K, f: C -> C)
    requires UniqueBy(t, key)
    requires forall i :: 0 <= i < |t| ==> key(f(t[i].cols)) == key(t[i].cols)
    ensures UniqueBy(Every(t, f), key)
  {
    var r := Every(t, f);
    forall i, j | 0 <= i < j < |r| ensures ColAt(r, key, i) != ColAt(r, key, j) {
      assert ColAt(r, key, i) == ColAt(t, key, i) && ColAt(r, key, j) == ColAt(t, key, j);
    }
  }

  /** An unconditioned UPDATE that sets the unique column to one value breaks the index once two rows exist. */
  lemma EveryCollides<C, K>(t: seq<Row<C>>, key: C -> K, f: C -> C, k: K)
    requires |t| >= 2 && forall c :: key(f(c)) == k
    ensures !UniqueBy(Every(t, f), key)
  {
    var r := Every(t, f);
    assert ColAt(r, key, 0) == k == ColAt(r, key, 1);
  }

  /** The key set of a row sequence grows by one key per appended row. */
  lemma IdsAppend<C>(rows: seq<Row<C>>, x: Row<C>)
    ensures Ids(rows + [x]) == Ids(rows) + {x.id}
  {
    var r := rows + [x];
    forall id | id in Ids(r) ensures id in Ids(rows) + {x.id} {
      var i :| 0 <= i < |r| && r[i].id == id;
      if i < |rows| {
        assert rows[i] == r[i];
      }
    }
    forall id | id in Ids(rows) ensures id in Ids(r) {
      var i :| 0 <= i < |rows| && rows[i].id == id;
      assert r[i] == rows[i];
    }
    assert r[|rows|] == x;
  }

  /** `Where(p).Find(...)`: every row that satisfies `p`, in key order. */
  function Where<C(==)>(t: seq<Row<C>>, p: Row<C> -> bool): (r: seq<Row<C>>)
    ensures |r| <= |t|
    ensures forall i :: 0 <= i < |r| ==> r[i] in t && p(r[i])
    ensures forall i :: 0 <= i < |t| && p(t[i]) ==> t[i] in r
  {
    if t == [] then [] else (if p(t[0]) then [t[0]] else []) + Where(t[1..], p)
  }

  /** The keys of some rows. */
  function Ids<C(==)>(rows: seq<Row<C>>): (s: set<Id>)
    ensures forall i :: 0 <= i < |rows| ==> rows[i].id in s
    ensures forall id :: id in s ==> exists i :: 0 <= i < |rows| && rows[i].id == id
  {
    set i | 0 <= i < |rows| :: rows[i].id
  }

  lemma KeyedPut<C>(t: seq<Row<C>>, next: Id, id: Id, c: C)
    requires Keyed(t, next)
    ensures Keyed(Put(t, id, c), next)
  {
    var r := Put(t, id, c);
    forall i, j | 0 <= i < j < |r| ensures KeyAt(r, i) < KeyAt(r, j) {
      assert KeyAt(r, i) == KeyAt(t, i) && KeyAt(r, j) == KeyAt(t, j);
    }
  }

  lemma KeyedInsert<C>(t: seq<Row<C>>, next: Id, c: C)
    requires Keyed(t, next)
    ensures Keyed(t + [Row(next, c)], next + 1)
  {
    var r := t + [Row(next, c)];
    forall i, j | 0 <= i < j < |r| ensures KeyAt(r, i) < KeyAt(r, j) {
      if j < |t| {
        assert KeyAt(r, i) == KeyAt(t, i) && KeyAt(r, j) == KeyAt(t, j);
      }
    }
  }

  /** Two rows of a keyed table with the same key are the same row. */
  lemma KeysDistinct<C>(t: seq<Row<C>>, next: Id, i: nat, j: nat)
    requires Keyed(t, next) && i < |t| && j < |t| && t[i].id == t[j].id
    ensures i == j
  {
    KeyOrder(t, next, i, j);
    KeyOrder(t, next, j, i);
  }

  /** Overwriting the last row by its own key replaces just that row. */
  lemma PutLast<C>(t: seq<Row<C>>, next: Id, c: C)
    requires Keyed(t, next) && |t| > 0
    ensures Put(t, t[|t| - 1].id, c) == t[..|t| - 1] + [Row(t[|t| - 1].id, c)]
  {
    var n := |t| - 1;
    var a := Put(t, t[n].id, c);
    var b := t[..n] + [Row(t[n].id, c)];
    forall i | 0 <= i < n ensures a[i] == b[i] {
      KeyOrder(t, next, i, n);
    }
    assert a[n] == b[n];
  }

  /** In a keyed table, key order is row order. */
  lemma KeyOrder<C>(t: seq<Row<C>>, next: Id, i: nat, j: nat)
    requires Keyed(t, next) && i < |t| && j < |t|
    ensures t[i].id < t[j].id <==> i < j
  {
    if i < j {
      assert KeyAt(t, i) < KeyAt(t, j);
    } else if j < i {
      assert KeyAt(t, j) < KeyAt(t, i);
    }
  }

  /** The rows with a smaller key than row `i` are exactly the rows before it. */
  lemma BelowKey<C>(t: seq<Row<C>>, next: Id, i: nat)
    requires Keyed(t, next) && i < |t|
    ensures forall j :: 0 <= j < |t| ==> (t[j].id < t[i].id <==> j < i)
  {
    forall j | 0 <= j < |t| ensures t[j].id < t[i].id <==> j < i {
      KeyOrder(t, next, j, i);
    }
  }

  /** Two different rows of a table with a unique column differ in that column. */
  lemma ColsDistinct<C, K>(t: seq<Row<C>>, key: C -> K, i: nat, j: nat)
    requires UniqueBy(t, key) && i < |t| && j < |t| && i != j
    ensures key(t[i].cols) != key(t[j].cols)
  {
    assert ColAt(t, key, i) != ColAt(t, key, j);
  }
  /** In a table with a unique column, no other row holds the value a stored row has there. */
  lemma StoredNotTaken<C, K>(t: seq<Row<C>>, key: C -> K, k: nat)
    requires UniqueBy(t, key) && k < |t|
    ensures !Taken(t, key, key(t[k].cols), t[k].id)
  {
    forall i | 0 <= i < |t| && t[i].id != t[k].id ensures key(t[i].cols) != key(t[k].cols) {
      ColsDistinct(t, key, i, k);
    }
  }


  /** An overwrite that keeps the unique column, or moves it to a value no other row has, keeps the index unique. */
  lemma UniquePut<C, K>(t: seq<Row<C>>, next: Id, key: C -> K, id: Id, c: C)
    requires Keyed(t, next) && UniqueBy(t, key)
    requires forall i :: 0 <= i < |t| && t[i].id != id ==> key(t[i].cols) != key(c)
    ensures UniqueBy(Put(t, id, c), key)
  {
    var r := Put(t, id, c);
    forall i, j | 0 <= i < j < |r| ensures ColAt(r, key, i) != ColAt(r, key, j) {
      if t[i].id == id || t[j].id == id {
        if t[i].id == t[j].id {
          KeysDistinct(t, next, i, j);
        }
      } else {
        assert ColAt(r, key, i) == ColAt(t, key, i) && ColAt(r, key, j) == ColAt(t, key, j);
      }
    }
  }

  lemma UniqueInsert<C, K>(t: seq<Row<C>>, key: C -> K, c: C)
    requires UniqueBy(t, key)
    requires forall i :: 0 <= i < |t| ==> key(t[i].cols) != key(c)
    ensures forall id :: UniqueBy(t + [Row(id, c)], key)
  {
    forall id ensures UniqueBy(t + [Row(id, c)], key) {
      var r := t + [Row(id, c)];
      forall i, j | 0 <= i < j < |r| ensures ColAt(r, key, i) != ColAt(r, key, j) {
        if j < |t| {
          assert ColAt(r, key, i) == ColAt(t, key, i) && ColAt(r, key, j) == ColAt(t, key, j);
        }
      }
    }
  }

  // -------------------------------------------------------------- associations

  /** One many-to-many association: owner key to the keys it is linked to. */
  type Assoc = map<Id, set<Id>>

  function Linked(a: Assoc, owner: Id): set<Id>
  {
    if owner in a then a[owner] else {}
  }

  /** `Association(...).Append(xs)`: add join rows; a pair already present stays one row. */
  function Link(a: Assoc, owner: Id, xs: set<Id>): (r: Assoc)
    ensures Linked(r, owner) == Linked(a, owner) + xs
    ensures forall o :: o != owner ==> Linked(r, o) == Linked(a, o)
  {
    if xs == {} then a else a[owner := Linked(a, owner) + xs]
  }

  /** `Association(...).Delete(xs)`: remove the join rows for those keys. */
  function Unlink(a: Assoc, owner: Id, xs: set<Id>): (r: Assoc)
    ensures Linked(r, owner) == Linked(a, owner) - xs
    ensures forall o :: o != owner ==> Linked(r, o) == Linked(a, o)
  {
    a[owner := Linked(a, owner) - xs]
  }

  /** `Association(...).Replace(xs)` (and `Clear()` with no keys): the owner's links become exactly `xs`. */
  function Relink(a: Assoc, owner: Id, xs: set<Id>): (r: Assoc)
    ensures Linked(r, owner) == xs
    ensures forall o :: o != owner ==> Linked(r, o) == Linked(a, o)
  {
    a[owner := xs]
  }

  /** Appending a link that is already there changes nothing a reader can see. */
  lemma LinkTwice(a: Assoc, owner: Id, xs: set<Id>)
    ensures Link(Link(a, owner, xs), owner, xs) == Link(a, owner, xs)
  {
  }
}
