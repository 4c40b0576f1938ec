/**
 * The persistence manager the finders forward to, reduced to one entity type's table.
 *
 * Doctrine's EntityManager is a foreign library; only what the finders observe of it is
 * modelled: a table of rows with generated integer ids, lookup by id, lookup by criteria,
 * and BaseEntity::save (persist + flush) and BaseEntity::delete (remove + flush) as updates
 * of that table.
 */
module Persistence {
  import opened Wrappers
  import opened Php

  /** A persisted entity: its generated id and its field values. */
  datatype Row = Row(id: int, fields: map<Key, Value>)

  /** An entity object as the finders hand it around; `id` is None until it is persisted. */
  datatype Record = Record(id: Option<int>, fields: map<Key, Value>)

  function AsRecord(row: Row): Record {
    Record(Some(row.id), row.fields)
  }

  predicate HasRow(rows: seq<Row>, id: int) {
    exists i :: 0 <= i < |rows| && rows[i].id == id
  }

  predicate DistinctIds(rows: seq<Row>) {
    forall i, j :: 0 <= i < j < |rows| ==> rows[i].id != rows[j].id
  }

  /** `EntityManager::find($class, $id)`: the entity with that id, or null. */
  function Lookup(rows: seq<Row>, id: int): (r: Option<Record>)
    ensures r.Some? <==> HasRow(rows, id)
    ensures r.Some? ==> r.value.id == Some(id) && Row(id, r.value.fields) in rows
  {
    if rows == [] then None
    else if rows[0].id == id then Some(AsRecord(rows[0]))
    else
      var r := Lookup(rows[1..], id);
      assert forall i :: 1 <= i < |rows| ==> rows[i] == rows[1..][i - 1];
      r
  }

  /**
   * The row satisfies one findBy criterion. `id` is the mapped identifier column, so a
   * criterion on it compares the row's id; any other key names a field holding that value.
   */
  predicate Satisfies(row: Row, criterion: (Key, Value)) {
    if criterion.0 == StrKey("id") then criterion.1 == VInt(row.id)
    else criterion.0 in row.fields && row.fields[criterion.0] == criterion.1
  }

  /** The row satisfies every findBy criterion. */
  predicate Matches(row: Row, criteria: seq<(Key, Value)>) {
    forall i :: 0 <= i < |criteria| ==> Satisfies(row, criteria[i])
  }

  /** `findBy(['id' => $id])` finds exactly the row with that id. */
  lemma FindByIdentifier(rows: seq<Row>, id: int)
    requires DistinctIds(rows)
    ensures forall x :: x in FindBy(rows, [(StrKey("id"), VInt(id))]) <==> HasRow(rows, id) && Some(x) == Lookup(rows, id)
  {
    var criteria := [(StrKey("id"), VInt(id))];
    forall x ensures x in FindBy(rows, criteria) <==> HasRow(rows, id) && Some(x) == Lookup(rows, id) {
      if x in FindBy(rows, criteria) {
        var row :| row in rows && Matches(row, criteria) && x == AsRecord(row);
        assert Satisfies(row, criteria[0]);
        LookupUnique(rows, row);
      }
      if HasRow(rows, id) && Some(x) == Lookup(rows, id) {
        var row := Row(id, x.fields);
        assert Satisfies(row, criteria[0]);
      }
    }
  }

  /** In a table with distinct ids, looking up a row's id yields that row. */
  lemma LookupUnique(rows: seq<Row>, row: Row)
    requires DistinctIds(rows) && row in rows
    ensures Lookup(rows, row.id) == Some(AsRecord(row))
  {
    var i :| 0 <= i < |rows| && rows[i] == row;
    var r := Lookup(rows, row.id).value;
    var j :| 0 <= j < |rows| && rows[j] == Row(row.id, r.fields);
    assert i == j;
  }

  /** `getRepository($class)->findBy($criteria)`: the matching entities, in table order. */
  function FindBy(rows: seq<Row>, criteria: seq<(Key, Value)>): (r: seq<Record>)
    ensures |r| <= |rows|
    ensures forall x :: x in r <==> exists row :: row in rows && Matches(row, criteria) && x == AsRecord(row)
  {
    if rows == [] then []
    else (if Matches(rows[0], criteria) then [AsRecord(rows[0])] else []) + FindBy(rows[1..], criteria)
  }

  /** `getRepository($class)->findOneBy($criteria)`: the first entity findBy would return, or null. */
  function FindOneBy(rows: seq<Row>, criteria: seq<(Key, Value)>): (r: Option<Record>)
    ensures r == if FindBy(rows, criteria) == [] then None else Some(FindBy(rows, criteria)[0])
  {
    if rows == [] then None
    else if Matches(rows[0], criteria) then Some(AsRecord(rows[0]))
    else FindOneBy(rows[1..], criteria)
  }

  /** findBy on a table with one more row: the old matches, then the new row if it matches. */
  lemma {:induction false} FindByAppended(rows: seq<Row>, row: Row, criteria: seq<(Key, Value)>)
    ensures FindBy(rows + [row], criteria) == FindBy(rows, criteria) + if Matches(row, criteria) then [AsRecord(row)] else []
  {
    if rows != [] {
      assert (rows + [row])[1..] == rows[1..] + [row];
      FindByAppended(rows[1..], row, criteria);
    }
  }

  /** The table after removing the entity `e`: every row with its id goes. */
  function Drop(rows: seq<Row>, e: Record): (r: seq<Row>)
    ensures forall x :: x in r <==> x in rows && e.id != Some(x.id)
    ensures DistinctIds(rows) ==> DistinctIds(r)
  {
    if rows == [] then []
    else
      var rest := Drop(rows[1..], e);
      assert forall x :: x in rows[1..] ==> x in rows;
      if e.id == Some(rows[0].id) then rest
      else
        assert DistinctIds(rows) ==> forall x :: x in rows[1..] ==> x.id != rows[0].id;
        [rows[0]] + rest
  }

  /** The table after `e` is written back: the row with its id now holds its fields. */
  function Replaced(rows: seq<Row>, e: Record): (r: seq<Row>)
    requires e.id.Some?
    ensures |r| == |rows|
    ensures forall i :: 0 <= i < |rows| ==> r[i].id == rows[i].id
    ensures forall i :: 0 <= i < |rows| ==> r[i] == if rows[i].id == e.id.value then Row(e.id.value, e.fields) else rows[i]
  {
    if rows == [] then []
    else [if rows[0].id == e.id.value then Row(e.id.value, e.fields) else rows[0]] + Replaced(rows[1..], e)
  }

  lemma LookupReplaced(rows: seq<Row>, e: Record)
    requires e.id.Some? && HasRow(rows, e.id.value)
    ensures Lookup(Replaced(rows, e), e.id.value) == Some(e)
  {
    if rows[0].id != e.id.value {
      assert Replaced(rows, e)[1..] == Replaced(rows[1..], e);
      var i :| 0 <= i < |rows| && rows[i].id == e.id.value;
      assert rows[1..][i - 1].id == e.id.value;
      LookupReplaced(rows[1..], e);
    }
  }

  lemma LookupAppended(rows: seq<Row>, row: Row)
    requires !HasRow(rows, row.id)
    ensures Lookup(rows + [row], row.id) == Some(AsRecord(row))
  {
    if rows != [] {
      assert (rows + [row])[1..] == rows[1..] + [row];
      assert !HasRow(rows[1..], row.id);
      LookupAppended(rows[1..], row);
    }
  }

  /** The table after removing each of `dead` in turn. */
  function DropAll(rows: seq<Row>, dead: seq<Record>): seq<Row> {
    if dead == [] then rows
    else Drop(DropAll(rows, dead[..|dead| - 1]), dead[|dead| - 1])
  }

  /** No entity of `dead` carries the id of `row`. */
  predicate Spared(dead: seq<Record>, row: Row) {
    forall j :: 0 <= j < |dead| ==> dead[j].id != Some(row.id)
  }

  /** Removing a list of entities leaves exactly the rows whose id none of them carries. */
  lemma {:induction false} DropAllMembers(rows: seq<Row>, dead: seq<Record>)
    ensures forall x :: x in DropAll(rows, dead) <==> x in rows && Spared(dead, x)
  {
    if dead != [] {
      var front := dead[..|dead| - 1];
      var last := dead[|dead| - 1];
      DropAllMembers(rows, front);
      forall x ensures Spared(dead, x) <==> Spared(front, x) && last.id != Some(x.id) {
        assert forall j :: 0 <= j < |front| ==> front[j] == dead[j];
      }
    }
  }

  /** Writing back an entity exactly as the table holds it changes nothing. */
  lemma ReplacedUnchanged(rows: seq<Row>, e: Record)
    requires DistinctIds(rows)
    requires e.id.Some? && Row(e.id.value, e.fields) in rows
    ensures Replaced(rows, e) == rows
  {
    var i :| 0 <= i < |rows| && rows[i] == Row(e.id.value, e.fields);
    forall j | 0 <= j < |rows| ensures Replaced(rows, e)[j] == rows[j] {
      if rows[j].id == e.id.value {
        assert j == i;
      }
    }
  }

  /** Inserting a row under an id above every stored one keeps the ids distinct and below the next. */
  lemma AppendedFresh(rows: seq<Row>, row: Row)
    requires DistinctIds(rows) && forall x :: x in rows ==> x.id < row.id
    ensures !HasRow(rows, row.id)
    ensures DistinctIds(rows + [row])
    ensures forall x :: x in rows + [row] ==> x.id < row.id + 1
  {
    assert forall i :: 0 <= i < |rows| ==> rows[i] in rows;
  }

  /** Writing fields back keeps every id, so the table stays well formed. */
  lemma ReplacedKeepsIds(rows: seq<Row>, e: Record, bound: int)
    requires e.id.Some?
    requires DistinctIds(rows) && forall x :: x in rows ==> x.id < bound
    ensures DistinctIds(Replaced(rows, e))
    ensures forall x :: x in Replaced(rows, e) ==> x.id < bound
  {
    var r := Replaced(rows, e);
    forall x | x in r ensures x.id < bound {
      var i :| 0 <= i < |r| && r[i] == x;
      assert rows[i] in rows;
    }
  }

  class EntityManager {
    /** The table, in insertion order. */
    var rows: seq<Row>
    /** The id the next inserted entity receives. */
    var nextId: int
    /** The entities handed to remove(), in call order. */
    ghost var removed: seq<Record>

    ghost predicate Valid()
      reads this
    {
      DistinctIds(rows) && forall x :: x in rows ==> x.id < nextId
    }

    constructor ()
      ensures Valid() && rows == [] && removed == []
    {
      rows := [];
      nextId := 1;
      removed := [];
    }

    /** Doctrine's insert of a new entity: it is stored under the next id. */
    method Insert(e: Record) returns (saved: Record)
      requires Valid()
      modifies this
      ensures Valid()
      ensures saved == Record(Some(old(nextId)), e.fields)
      ensures Lookup(rows, old(nextId)) == Some(saved)
      ensures rows == old(rows) + [Row(old(nextId), e.fields)] && nextId == old(nextId) + 1
      ensures removed == old(removed)
    {
      var row := Row(nextId, e.fields);
      AppendedFresh(rows, row);
      LookupAppended(rows, row);
      rows, nextId, saved := rows + [row], nextId + 1, AsRecord(row);
    }

    /** Doctrine's update of a managed entity: its row takes the entity's fields. */
    method Update(e: Record)
      requires Valid()
      requires e.id.Some? && HasRow(rows, e.id.value)
      modifies this
      ensures Valid()
      ensures Lookup(rows, e.id.value) == Some(e)
      ensures rows == Replaced(old(rows), e) && nextId == old(nextId)
      ensures removed == old(removed)
    {
      LookupReplaced(rows, e);
      ReplacedKeepsIds(rows, e, nextId);
      rows := Replaced(rows, e);
    }

    /**
     * BaseEntity::save: persist + flush. A new entity is inserted under a fresh id; a managed
     * one is written back over its row. Doctrine refuses to persist a detached entity, so the
     * id of a non-new entity must be in the table.
     */
    method Save(e: Record) returns (saved: Record)
      requires Valid()
      requires e.id.Some? ==> HasRow(rows, e.id.value)
      modifies this
      ensures Valid()
      ensures saved.fields == e.fields && saved.id.Some?
      ensures Lookup(rows, saved.id.value) == Some(saved)
      ensures e.id.None? ==> saved.id == Some(old(nextId)) && rows == old(rows) + [Row(old(nextId), e.fields)] && nextId == old(nextId) + 1
      ensures e.id.Some? ==> saved == e && rows == Replaced(old(rows), e) && nextId == old(nextId)
      ensures removed == old(removed)
    {
      if e.id.None? {
        saved := Insert(e);
      } else {
        Update(e);
        saved := e;
      }
    }

    /** BaseEntity::delete: remove + flush. An entity that was never persisted is ignored. */
    method Delete(e: Record)
      requires Valid()
      modifies this
      ensures Valid()
      ensures rows == Drop(old(rows), e) && nextId == old(nextId)
      ensures removed == old(removed) + [e]
    {
      rows := Drop(rows, e);
      removed := removed + [e];
    }
  }
}
