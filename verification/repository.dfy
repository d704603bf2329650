/** The task repository: create, list, save, delete and toggle over an
    id-keyed table. The table is a sequence of rows in storage order (the
    order a plain `SELECT` returns them in this model) together with the
    next value of the id sequence. */
module Repository {
  import opened Models
  import opened Selection

  datatype Store = Store(rows: seq<Task>, nextId: nat)

  /** The store after a mutating call, and the error it reported, if any. */
  datatype Outcome = Outcome(store: Store, err: Option<Error>)

  /** The table's constraints: the primary key is unique, the unassigned id 0
      is never stored, and the id sequence starts at 1. */
  predicate Valid(s: Store) {
    DistinctIds(s.rows) && 0 !in Ids(s.rows) && s.nextId >= 1
  }

  const Empty: Store := Store([], 1)

  /** The id sequence is ahead of every stored id, as it is while every
      insert draws its id from the sequence: the next drawn id is then
      always free. */
  predicate Fresh(s: Store) {
    forall id :: id in Ids(s.rows) ==> id < s.nextId
  }

  /** The row a lookup by primary key returns (`First(&task, id)`). */
  function Find(rows: seq<Task>, id: nat): (r: Option<Task>)
    ensures r.Some? ==> r.value in rows && r.value.id == id
    ensures r.None? <==> id !in Ids(rows)
  {
    if rows == [] then None
    else if rows[0].id == id then Some(rows[0])
    else (
      assert Ids(rows) == {rows[0].id} + Ids(rows[1..]) by {
        assert rows == [rows[0]] + rows[1..];
      }
      Find(rows[1..], id))
  }

  /** With a unique primary key, every stored row is the one its id finds. */
  lemma {:induction false} FindUnique(rows: seq<Task>, t: Task)
    requires DistinctIds(rows)
    requires t in rows
    ensures Find(rows, t.id) == Some(t)
  {
    if rows[0] != t {
      assert t in rows[1..];
      var k :| 0 <= k < |rows[1..]| && rows[1..][k] == t;
      assert rows[k + 1] == t;
      FindUnique(rows[1..], t);
    }
  }

  /** Appending a row whose id is not yet stored keeps the key unique. */
  lemma AppendFresh(rows: seq<Task>, n: Task)
    requires DistinctIds(rows)
    requires n.id !in Ids(rows)
    ensures DistinctIds(rows + [n])
    ensures Ids(rows + [n]) == Ids(rows) + {n.id}
  {
    var r := rows + [n];
    forall i, j | 0 <= i < j < |r|
      ensures r[i].id != r[j].id
    {
      if j == |rows| {
        assert r[i] in rows;
      }
    }
  }

  /** `Create`: insert one row. A caller-supplied id of 0 draws the next value
      of the id sequence (consumed even when the insert then fails); any
      other id is used as given. An id already stored is a key violation and
      inserts nothing. The store stamps both timestamps with `now`. */
  function Create(s: Store, t: Task, now: Time): (r: Outcome)
    requires Valid(s)
    ensures Valid(r.store)
    ensures r.err == None || r.err == Some(DuplicateKey)
    ensures r.err.Some? ==> r.store.rows == s.rows
    ensures r.err.None? <==> (if t.id == 0 then s.nextId else t.id) !in Ids(s.rows)
    ensures r.store.nextId == if t.id == 0 then s.nextId + 1 else s.nextId
    ensures r.err.None? ==>
      && |r.store.rows| == |s.rows| + 1
      && r.store.rows[..|s.rows|] == s.rows
      && var n := r.store.rows[|s.rows|];
         && n.id !in Ids(s.rows) && n.id != 0
         && n.id == (if t.id == 0 then s.nextId else t.id)
         && SameContent(n, t)
         && n.createdAt == now && n.updatedAt == now
  {
    var id := if t.id == 0 then s.nextId else t.id;
    var next := if t.id == 0 then s.nextId + 1 else s.nextId;
    if id in Ids(s.rows) then
      Outcome(Store(s.rows, next), Some(DuplicateKey))
    else
      var n := t.(id := id, createdAt := now, updatedAt := now);
      AppendFresh(s.rows, n);
      assert (s.rows + [n])[..|s.rows|] == s.rows;
      Outcome(Store(s.rows + [n], next), None)
  }

  /** A create that draws its id from the sequence succeeds whenever the
      sequence is ahead of every stored id, and keeps it ahead. */
  lemma CreateAutoIdSucceeds(s: Store, t: Task, now: Time)
    requires Valid(s) && Fresh(s)
    requires t.id == 0
    ensures var r := Create(s, t, now);
      && r.err.None?
      && r.store.rows[|s.rows|].id == s.nextId
      && Fresh(r.store)
  {
    var r := Create(s, t, now);
    assert s.nextId !in Ids(s.rows);
    var n := r.store.rows[|s.rows|];
    assert r.store.rows == s.rows + [n] by {
      assert r.store.rows == r.store.rows[..|s.rows|] + [n];
    }
    AppendFresh(s.rows, n);
  }

  /** `GetAll`: every stored row, and only stored rows. */
  function GetAll(s: Store): (r: seq<Task>)
    requires Valid(s)
    ensures forall t :: t in r <==> Find(s.rows, t.id) == Some(t)
    ensures |r| == |s.rows|
  {
    forall t | t in s.rows
      ensures Find(s.rows, t.id) == Some(t)
    {
      FindUnique(s.rows, t);
    }
    s.rows
  }

  /** The rows with the one whose id is `t.id` replaced by `t`, in place. */
  function Replace(rows: seq<Task>, t: Task): (r: seq<Task>)
  {
    seq(|rows|, i requires 0 <= i < |rows| => if rows[i].id == t.id then t else rows[i])
  }

  /** Replacing a stored row in place keeps the set of ids and the key
      unique, and the lookup then finds the new row. */
  lemma ReplaceStored(rows: seq<Task>, n: Task)
    requires DistinctIds(rows)
    requires n.id in Ids(rows)
    ensures Ids(Replace(rows, n)) == Ids(rows)
    ensures DistinctIds(Replace(rows, n))
    ensures Find(Replace(rows, n), n.id) == Some(n)
  {
    var r := Replace(rows, n);
    forall x | x in Ids(r) ensures x in Ids(rows) {
      var u :| u in r && u.id == x;
      var k :| 0 <= k < |r| && r[k] == u;
      assert rows[k] in rows;
    }
    forall x | x in Ids(rows) ensures x in Ids(r) {
      var u :| u in rows && u.id == x;
      var k :| 0 <= k < |rows| && rows[k] == u;
      assert r[k] in r;
    }
    var k :| 0 <= k < |rows| && rows[k].id == n.id;
    assert r[k] == n;
    FindUnique(r, n);
  }

  /** `Update` (GORM's `Save`): a record whose id is stored replaces that row
      in place, with `updatedAt` refreshed; a record with id 0 or an id not
      stored is inserted instead, as `Create` does. */
  function Update(s: Store, t: Task, now: Time): (r: Outcome)
    requires Valid(s)
    ensures Valid(r.store)
    ensures t.id !in Ids(s.rows) ==> r == Create(s, t, now)
    ensures t.id in Ids(s.rows) ==>
      && r.err.None?
      && r.store.nextId == s.nextId
      && |r.store.rows| == |s.rows|
      && Find(r.store.rows, t.id) == Some(t.(updatedAt := now))
      && (forall i :: 0 <= i < |s.rows| ==> r.store.rows[i].id == s.rows[i].id)
      && (forall i :: 0 <= i < |s.rows| && s.rows[i].id != t.id ==> r.store.rows[i] == s.rows[i])
  {
    if t.id !in Ids(s.rows) then
      Create(s, t, now)
    else
      var n := t.(updatedAt := now);
      ReplaceStored(s.rows, n);
      Outcome(Store(Replace(s.rows, n), s.nextId), None)
  }

  /** `Delete`: remove the row with this id, if there is one. A missing id is
      not an error: the call then removes nothing. */
  function Delete(s: Store, id: nat): (r: Store)
    requires Valid(s)
    ensures Valid(r)
    ensures r.nextId == s.nextId
    ensures id !in Ids(r.rows)
    ensures forall t :: t in r.rows <==> t in s.rows && t.id != id
    ensures |r.rows| == if id in Ids(s.rows) then |s.rows| - 1 else |s.rows|
    ensures SubsequenceOf(r.rows, s.rows)
  {
    var rows := Filter(s.rows, IdOtherThan(id));
    FilterKeepsDistinct(s.rows, IdOtherThan(id));
    FilterIsSubsequence(s.rows, IdOtherThan(id));
    DeleteCount(s.rows, id);
    Store(rows, s.nextId)
  }

  /** Removing one key from rows with a unique key shortens them by one
      exactly when the key is present. */
  lemma {:induction false} DeleteCount(rows: seq<Task>, id: nat)
    requires DistinctIds(rows)
    ensures |Filter(rows, IdOtherThan(id))| == if id in Ids(rows) then |rows| - 1 else |rows|
  {
    if rows != [] {
      assert rows == [rows[0]] + rows[1..];
      assert Ids(rows) == {rows[0].id} + Ids(rows[1..]);
      DeleteCount(rows[1..], id);
    }
  }

  /** `after` is `before` with the completion flag of the row keyed `id`
      negated and its `updatedAt` set to `now`, every row in its place. */
  predicate Toggled(before: seq<Task>, after: seq<Task>, id: nat, now: Time) {
    && |after| == |before|
    && forall i :: 0 <= i < |before| ==>
         after[i] ==
           if before[i].id == id
           then before[i].(completed := !before[i].completed, updatedAt := now)
           else before[i]
  }

  /** `ToggleComplete`: look the row up, negate `completed`, save it. A
      missing id is reported as `NotFound` and changes nothing. */
  function ToggleComplete(s: Store, id: nat, now: Time): (r: Outcome)
    requires Valid(s)
    ensures Valid(r.store)
    ensures id !in Ids(s.rows) ==> r == Outcome(s, Some(NotFound))
    ensures id in Ids(s.rows) ==>
      && r.err.None?
      && r.store.nextId == s.nextId
      && Toggled(s.rows, r.store.rows, id, now)
  {
    match Find(s.rows, id)
    case None => Outcome(s, Some(NotFound))
    case Some(t) =>
      var r := Update(s, t.(completed := !t.completed), now);
      assert forall i :: 0 <= i < |s.rows| && s.rows[i].id == id ==> s.rows[i] == t by {
        forall i | 0 <= i < |s.rows| && s.rows[i].id == id ensures s.rows[i] == t {
          FindUnique(s.rows, s.rows[i]);
        }
      }
      assert forall i :: 0 <= i < |s.rows| && s.rows[i].id == id ==> r.store.rows[i] == t.(completed := !t.completed, updatedAt := now) by {
        forall i | 0 <= i < |s.rows| && s.rows[i].id == id
          ensures r.store.rows[i] == t.(completed := !t.completed, updatedAt := now)
        {
          assert r.store.rows[i] in r.store.rows;
          FindUnique(r.store.rows, r.store.rows[i]);
        }
      }
      r
  }

  /** Toggling the same task twice restores every field but `updatedAt`,
      which holds the time of the second toggle; the rest of the table is as
      before. */
  lemma ToggleTwiceRestores(s: Store, id: nat, first: Time, second: Time)
    requires Valid(s)
    requires id in Ids(s.rows)
    ensures var twice := ToggleComplete(ToggleComplete(s, id, first).store, id, second);
            && twice.err.None?
            && twice.store.nextId == s.nextId
            && |twice.store.rows| == |s.rows|
            && forall i :: 0 <= i < |s.rows| ==>
                 twice.store.rows[i] ==
                   if s.rows[i].id == id then s.rows[i].(updatedAt := second) else s.rows[i]
  {
    var once := ToggleComplete(s, id, first);
    var k :| 0 <= k < |s.rows| && s.rows[k].id == id;
    assert once.store.rows[k].id == id;
    assert once.store.rows[k] in once.store.rows;
    var twice := ToggleComplete(once.store, id, second);
    assert Toggled(s.rows, once.store.rows, id, first);
    assert Toggled(once.store.rows, twice.store.rows, id, second);
    forall i | 0 <= i < |s.rows|
      ensures twice.store.rows[i] ==
                if s.rows[i].id == id then s.rows[i].(updatedAt := second) else s.rows[i]
    {
      assert once.store.rows[i].id == s.rows[i].id;
    }
  }

  /** Deleting takes no id from the sequence and adds none to the table, so
      it keeps the sequence ahead of every stored id. */
  lemma DeleteKeepsFresh(s: Store, id: nat)
    requires Valid(s) && Fresh(s)
    ensures Fresh(Delete(s, id))
  {
    var d := Delete(s, id);
    forall x | x in Ids(d.rows) ensures x < d.nextId {
      var u :| u in d.rows && u.id == x;
      assert u.id in Ids(s.rows);
    }
  }

  /** Toggling keeps every row's id in place and leaves the sequence alone,
      so it keeps the sequence ahead of every stored id. */
  lemma ToggleKeepsFresh(s: Store, id: nat, now: Time)
    requires Valid(s) && Fresh(s)
    ensures Fresh(ToggleComplete(s, id, now).store)
  {
    var t := ToggleComplete(s, id, now).store;
    if id in Ids(s.rows) {
      assert Toggled(s.rows, t.rows, id, now);
      forall x | x in Ids(t.rows) ensures x < t.nextId {
        var u :| u in t.rows && u.id == x;
        var k :| 0 <= k < |t.rows| && t.rows[k] == u;
        assert s.rows[k] in s.rows && u.id == s.rows[k].id;
        assert s.rows[k].id in Ids(s.rows);
      }
    }
  }

  /** After a delete, toggling the deleted id reports `NotFound`. */
  lemma DeleteThenToggleNotFound(s: Store, id: nat, now: Time)
    requires Valid(s)
    ensures ToggleComplete(Delete(s, id), id, now).err == Some(NotFound)
  {
  }
}
