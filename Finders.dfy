/**
 * BaseEntity's static finders and factories: find, findOne, findOrFail, firstOrFail,
 * firstOrNew, create, updateOrCreate, firstOrCreate and destroy, over one entity class whose
 * table the EntityManager holds.
 *
 * An argument that PHP's type declarations reject (has_string_keys is declared
 * `array $array`, Doctrine's findOneBy takes an array) ends in a TypeError; a method called on
 * the null that a finder returned ends in an Error. Both are modelled as failures.
 */
module Finders {
  import opened Wrappers
  import opened Php
  import opened Persistence

  /** What a finder throws. */
  datatype Fault = TypeError | EntityNotFound | NullMethodCall

  /** What find and findOne return: one entity or null, or a PHP list of entities or nulls. */
  datatype Fetched = One(entity: Option<Record>) | Many(items: seq<Option<Record>>)

  /** PHP's boolean conversion of a finder result; `$x == null` is its negation. */
  predicate Truthy(f: Fetched): (r: bool)
    ensures !r <==> f == One(None) || f == Many([])
  {
    match f
    case One(e) => e.Some?
    case Many(items) => items != []
  }

  // ---------------------------------------------------------------------------------------
  // has_string_keys
  // ---------------------------------------------------------------------------------------

  /** `array_filter(array_keys($array), 'is_string')`. */
  function StringKeys(entries: seq<(Key, Value)>): (r: seq<Key>)
    ensures forall k :: k in r <==> k.StrKey? && exists i :: 0 <= i < |entries| && entries[i].0 == k
  {
    if entries == [] then []
    else
      var rest := StringKeys(entries[1..]);
      assert forall i :: 1 <= i < |entries| ==> entries[i] == entries[1..][i - 1];
      (if entries[0].0.StrKey? then [entries[0].0] else []) + rest
  }

  /** has_string_keys: the array has at least one string key. */
  function HasStringKeys(entries: seq<(Key, Value)>): (r: bool)
    ensures r <==> exists i :: 0 <= i < |entries| && entries[i].0.StrKey?
  {
    var keys := StringKeys(entries);
    assert forall i :: 0 <= i < |entries| && entries[i].0.StrKey? ==> entries[i].0 in keys;
    assert |keys| > 0 ==> keys[0] in keys;
    |keys| > 0
  }

  // ---------------------------------------------------------------------------------------
  // find
  // ---------------------------------------------------------------------------------------

  /** `EntityManager::find($class, $option)` for one element of an id list. */
  function FindById(rows: seq<Row>, option: Value): (r: Option<Record>)
    ensures r.Some? <==> option.VInt? && HasRow(rows, option.i)
    ensures r.Some? ==> r.value.id == Some(option.i) && Stored(rows, r.value)
  {
    if option.VInt? then Lookup(rows, option.i) else None
  }

  /** The list find builds with `$array[] = EntityManager::find(...)`, one element per option. */
  function IdList(rows: seq<Row>, entries: seq<(Key, Value)>): (r: seq<Option<Record>>)
    ensures |r| == |entries|
    ensures forall j :: 0 <= j < |entries| ==> r[j] == FindById(rows, entries[j].1)
  {
    if entries == [] then []
    else IdList(rows, entries[..|entries| - 1]) + [FindById(rows, entries[|entries| - 1].1)]
  }

  /** findBy's entities as a PHP list. */
  function Somes(records: seq<Record>): (r: seq<Option<Record>>)
    ensures |r| == |records| && forall j :: 0 <= j < |records| ==> r[j] == Some(records[j])
  {
    seq(|records|, j requires 0 <= j < |records| => Some(records[j]))
  }

  /** What `find($options)` returns, or what it throws. */
  function FindResult(rows: seq<Row>, options: Value): Result<Fetched, Fault> {
    match options
    case VInt(id) => Success(One(Lookup(rows, id)))
    case VArray(entries) =>
      if HasStringKeys(entries) || entries == [] then Success(Many(Somes(FindBy(rows, entries))))
      else Success(Many(IdList(rows, entries)))
    case _ => Failure(TypeError)
  }

  /** find: by id, by criteria, or by a list of ids. */
  method Find(em: EntityManager, options: Value := VArray([])) returns (r: Result<Fetched, Fault>)
    ensures r == FindResult(em.rows, options)
  {
    if options.VInt? {
      return Success(One(Lookup(em.rows, options.i)));
    }
    if !options.VArray? {
      return Failure(TypeError);
    }
    var entries := options.entries;
    if HasStringKeys(entries) || entries == [] {
      return Success(Many(Somes(FindBy(em.rows, entries))));
    }
    var list: seq<Option<Record>> := [];
    var i := 0;
    while i < |entries|
      invariant 0 <= i <= |entries|
      invariant list == IdList(em.rows, entries[..i])
    {
      assert entries[..i + 1][..i] == entries[..i];
      list := list + [FindById(em.rows, entries[i].1)];
      i := i + 1;
    }
    assert entries[..i] == entries;
    return Success(Many(list));
  }

  /** Every row of the table as an entity, in table order. */
  function AllRecords(rows: seq<Row>): (r: seq<Record>)
    ensures |r| == |rows| && forall j :: 0 <= j < |rows| ==> r[j] == AsRecord(rows[j])
  {
    seq(|rows|, j requires 0 <= j < |rows| => AsRecord(rows[j]))
  }

  lemma {:induction false} FindByNothing(rows: seq<Row>)
    ensures FindBy(rows, []) == AllRecords(rows)
  {
    if rows != [] {
      FindByNothing(rows[1..]);
      assert Matches(rows[0], []);
    }
  }

  /** `find()` and `find([])` return every entity of the class, in table order. */
  lemma FindEverything(rows: seq<Row>)
    ensures FindResult(rows, VArray([])) == Success(Many(Somes(AllRecords(rows))))
  {
    FindByNothing(rows);
  }

  /**
   * find with criteria (an array with a string key) returns each entity whose fields match
   * every criterion, and no other; none of its elements is null.
   */
  lemma FindByCriteria(rows: seq<Row>, criteria: seq<(Key, Value)>)
    requires HasStringKeys(criteria)
    ensures FindResult(rows, VArray(criteria)).Success?
    ensures var items := FindResult(rows, VArray(criteria)).value.items;
      && (forall j :: 0 <= j < |items| ==> items[j].Some?)
      && (forall x :: Some(x) in items <==> exists row :: row in rows && Matches(row, criteria) && x == AsRecord(row))
  {
    var items := FindResult(rows, VArray(criteria)).value.items;
    var found := FindBy(rows, criteria);
    forall x ensures Some(x) in items <==> x in found {
      if Some(x) in items {
        var j :| 0 <= j < |items| && items[j] == Some(x);
        assert found[j] == x;
      }
      if x in found {
        var j :| 0 <= j < |found| && found[j] == x;
        assert items[j] == Some(x);
      }
    }
  }

  /**
   * find with a list of ids returns one element per listed id, in the listed order: the entity
   * with that id, or null when there is none; a repeated id yields the same entity twice.
   */
  lemma FindIdList(rows: seq<Row>, ids: seq<(Key, Value)>)
    requires ids != [] && !HasStringKeys(ids)
    ensures FindResult(rows, VArray(ids)).Success?
    ensures var items := FindResult(rows, VArray(ids)).value.items;
      && |items| == |ids|
      && (forall j :: 0 <= j < |ids| ==> (items[j].Some? <==> ids[j].1.VInt? && HasRow(rows, ids[j].1.i)))
      && (forall j :: 0 <= j < |ids| && items[j].Some? ==> items[j].value.id == Some(ids[j].1.i))
      && (forall j, j' :: 0 <= j < |ids| && 0 <= j' < |ids| && ids[j].1 == ids[j'].1 ==> items[j] == items[j'])
  {
  }

  // ---------------------------------------------------------------------------------------
  // findOne, findOrFail, firstOrFail
  // ---------------------------------------------------------------------------------------

  /** The entity is one the table holds: it has an id and a row with that id and its fields. */
  predicate Stored(rows: seq<Row>, x: Record) {
    x.id.Some? && Row(x.id.value, x.fields) in rows
  }

  /** findOne: by id, or the first entity matching the criteria; an object or null. */
  function FindOne(rows: seq<Row>, options: Value := VArray([])): (r: Result<Fetched, Fault>)
    ensures r.Success? ==> r.value.One?
    ensures r.Success? && r.value.entity.Some? ==> Stored(rows, r.value.entity.value)
    ensures r.Failure? <==> !options.VInt? && !options.VArray?
    ensures options.VInt? ==> r == Success(One(Lookup(rows, options.i)))
    ensures options.VArray? ==> (r.value.entity.None? <==> forall row :: row in rows ==> !Matches(row, options.entries))
    ensures options.VArray? && r.value.entity.Some? ==>
      Matches(Row(r.value.entity.value.id.value, r.value.entity.value.fields), options.entries)
  {
    match options
    case VInt(id) => Success(One(Lookup(rows, id)))
    case VArray(criteria) =>
      var first := FindOneBy(rows, criteria);
      assert first.Some? ==> first.value in FindBy(rows, criteria);
      forall row | row in rows && Matches(row, criteria) ensures first.Some? {
        assert AsRecord(row) in FindBy(rows, criteria);
      }
      Success(One(first))
    case _ => Failure(TypeError)
  }

  /**
   * findOrFail: find, throwing EntityNotFoundException when the result is null or []. A list
   * of ids is never thrown, even when none of the ids exists: its elements are then nulls.
   */
  method FindOrFail(em: EntityManager, options: Value := VArray([])) returns (r: Result<Fetched, Fault>)
    ensures r.Success? <==> FindResult(em.rows, options).Success? && Truthy(FindResult(em.rows, options).value)
    ensures r.Success? ==> r == FindResult(em.rows, options)
    ensures r.Failure? && FindResult(em.rows, options).Success? ==> r.error == EntityNotFound
    ensures FindResult(em.rows, options).Failure? ==> r == FindResult(em.rows, options)
    ensures options.VArray? && options.entries != [] && !HasStringKeys(options.entries) ==>
      r == Success(Many(IdList(em.rows, options.entries)))
  {
    r := Find(em, options);
    if r.Success? && (r.value == Many([]) || !Truthy(r.value)) {
      r := Failure(EntityNotFound);
    }
  }

  /**
   * firstOrFail as written: its guard `$return === []` compares findOne's object-or-null with
   * the empty array, which never holds, so it returns exactly what findOne returns, null
   * included.
   */
  function FirstOrFail(rows: seq<Row>, options: Value := VArray([])): (r: Result<Fetched, Fault>)
    ensures r == FindOne(rows, options)
  {
    match FindOne(rows, options)
    case Failure(f) => Failure(f)
    case Success(found) => if found == Many([]) then Failure(EntityNotFound) else Success(found)
  }

  /** On an empty table firstOrFail returns null instead of throwing EntityNotFoundException. */
  lemma FirstOrFailReturnsNull()
    ensures FirstOrFail([], VArray([(StrKey("name"), VStr("x"))])) == Success(One(None))
    ensures FirstOrFail([], VInt(1)) == Success(One(None))
  {
  }

  /** firstOrFail as documented: throw when findOne finds nothing. */
  function FirstOrFailIntended(rows: seq<Row>, options: Value := VArray([])): (r: Result<Fetched, Fault>)
    ensures r.Success? ==> r.value.One? && r.value.entity.Some? && Stored(rows, r.value.entity.value)
    ensures r == Failure(EntityNotFound) <==> FindOne(rows, options) == Success(One(None))
    ensures r.Success? <==> FindOne(rows, options).Success? && Truthy(FindOne(rows, options).value)
  {
    match FindOne(rows, options)
    case Failure(f) => Failure(f)
    case Success(found) => if !Truthy(found) then Failure(EntityNotFound) else Success(found)
  }

  // ---------------------------------------------------------------------------------------
  // create, firstOrNew
  // ---------------------------------------------------------------------------------------

  /** `foreach ($pairs as $key => $value) $entity->__set($key, $value);` on the fields `fields`. */
  function Assigned(fields: map<Key, Value>, pairs: seq<(Key, Value)>): map<Key, Value>
    decreases pairs
  {
    if pairs == [] then fields else Assigned(fields[pairs[0].0 := pairs[0].1], pairs[1..])
  }

  /** No pair after the `j`th sets the same key. */
  predicate LastFor(pairs: seq<(Key, Value)>, j: nat)
    requires j < |pairs|
  {
    forall j' :: j < j' < |pairs| ==> pairs[j'].0 != pairs[j].0
  }

  /** Some pair sets the key `k`. */
  predicate Sets(pairs: seq<(Key, Value)>, k: Key) {
    exists j :: 0 <= j < |pairs| && pairs[j].0 == k
  }

  /**
   * The assignments yield the old keys and the assigned ones; an assigned key holds the value
   * of the last pair setting it, and any other key keeps its old value.
   */
  lemma {:induction false} AssignedMeaning(fields: map<Key, Value>, pairs: seq<(Key, Value)>)
    ensures var r := Assigned(fields, pairs);
      && (forall k :: k in r <==> k in fields || Sets(pairs, k))
      && (forall j :: 0 <= j < |pairs| && LastFor(pairs, j) ==> pairs[j].0 in r && r[pairs[j].0] == pairs[j].1)
      && (forall k :: k in fields && !Sets(pairs, k) ==> k in r && r[k] == fields[k])
    decreases pairs
  {
    if pairs != [] {
      var (k0, v0) := pairs[0];
      var tail := pairs[1..];
      var f1 := fields[k0 := v0];
      var r := Assigned(fields, pairs);
      assert r == Assigned(f1, tail);
      AssignedMeaning(f1, tail);
      assert forall j :: 1 <= j < |pairs| ==> pairs[j] == tail[j - 1];
      forall k ensures Sets(pairs, k) <==> k == k0 || Sets(tail, k) {
        if Sets(tail, k) {
          var j :| 0 <= j < |tail| && tail[j].0 == k;
          assert pairs[j + 1].0 == k;
        }
      }
      forall j | 0 <= j < |pairs| && LastFor(pairs, j) ensures pairs[j].0 in r && r[pairs[j].0] == pairs[j].1 {
        if j > 0 {
          assert LastFor(tail, j - 1) by {
            forall j' | j - 1 < j' < |tail| ensures tail[j'].0 != tail[j - 1].0 {
              assert tail[j'] == pairs[j' + 1];
            }
          }
        }
      }
    }
  }

  /** Assigning one array and then another is assigning their concatenation. */
  lemma {:induction false} AssignedThen(fields: map<Key, Value>, first: seq<(Key, Value)>, second: seq<(Key, Value)>)
    ensures Assigned(Assigned(fields, first), second) == Assigned(fields, first + second)
    decreases first
  {
    if first != [] {
      assert (first + second)[1..] == first[1..] + second;
      AssignedThen(fields[first[0].0 := first[0].1], first[1..], second);
    } else {
      assert first + second == second;
    }
  }

  /** The entity `create($options)` returns. */
  function Created(options: Value): Record {
    Record(None, if options.VArray? then Assigned(map[], options.entries) else map[])
  }

  /**
   * create: a new, unsaved entity with every entry of `$options` set on it, integer keys
   * included; an argument that is not an array gives a blank entity.
   */
  method Create(options: Value) returns (e: Record)
    ensures e == Created(options)
  {
    e := Record(None, map[]);
    if options.VArray? {
      var entries := options.entries;
      var i := 0;
      while i < |entries|
        invariant 0 <= i <= |entries|
        invariant e.id == None
        invariant Assigned(e.fields, entries[i..]) == Assigned(map[], entries)
      {
        assert entries[i..][1..] == entries[i + 1..];
        e := e.(fields := e.fields[entries[i].0 := entries[i].1]);
        i := i + 1;
      }
    }
  }

  /** An array of options (whose keys PHP keeps distinct) becomes exactly the new entity's fields. */
  lemma CreatedFields(entries: seq<(Key, Value)>)
    requires DistinctKeys(entries)
    ensures var fields := Created(VArray(entries)).fields;
      forall k :: (k in fields <==> Get(entries, k).Some?) && (k in fields ==> fields[k] == Get(entries, k).value)
  {
    var fields := Created(VArray(entries)).fields;
    AssignedMeaning(map[], entries);
    forall k | k in fields ensures Get(entries, k).Some? && fields[k] == Get(entries, k).value {
      var j :| 0 <= j < |entries| && entries[j].0 == k;
      GetAt(entries, j);
    }
  }

  /** What `firstOrNew($options)` returns: findOne's entity, or else `create($options)`. */
  function NewOrFound(rows: seq<Row>, options: Value): (r: Result<Record, Fault>)
    ensures r.Failure? <==> FindOne(rows, options).Failure?
    ensures r.Success? && r.value.id.Some? ==> Stored(rows, r.value) && FindOne(rows, options) == Success(One(Some(r.value)))
    ensures r.Success? && r.value.id.None? ==> r.value == Created(options) && FindOne(rows, options) == Success(One(None))
  {
    match FindOne(rows, options)
    case Failure(f) => Failure(f)
    case Success(found) => if Truthy(found) then Success(found.entity.value) else Success(Created(options))
  }

  /**
   * firstOrNew: findOne, falling back to create. This is the operation as the source runs it,
   * calling the Create method; `NewOrFound` is its specification, which the contracts of
   * updateOrCreate and firstOrCreate and the lemmas about them use.
   */
  method FirstOrNew(em: EntityManager, options: Value := VArray([])) returns (r: Result<Record, Fault>)
    ensures r == NewOrFound(em.rows, options)
  {
    var found := FindOne(em.rows, options);
    if found.Failure? {
      return Failure(found.error);
    }
    if !Truthy(found.value) {
      var e := Create(options);
      return Success(e);
    }
    return Success(found.value.entity.value);
  }

  // ---------------------------------------------------------------------------------------
  // updateOrCreate, firstOrCreate
  // ---------------------------------------------------------------------------------------

  /**
   * updateOrCreate: firstOrNew, then every entry of `$update` set on the entity, then save.
   * A found entity is written back over its row; a new one is inserted with both the options
   * and the update, the update winning where they share a key.
   */
  method UpdateOrCreate(em: EntityManager, options: Value, update: seq<(Key, Value)>) returns (r: Result<Record, Fault>)
    requires em.Valid()
    modifies em
    ensures em.Valid() && em.removed == old(em.removed)
    ensures match NewOrFound(old(em.rows), options)
      case Failure(f) => r == Failure(f) && em.rows == old(em.rows) && em.nextId == old(em.nextId)
      case Success(e) =>
        && r.Success? && r.value.id.Some?
        && r.value.fields == Assigned(e.fields, update)
        && Lookup(em.rows, r.value.id.value) == Some(r.value)
        && (e.id.Some? ==> r.value.id == e.id && em.rows == Replaced(old(em.rows), r.value) && em.nextId == old(em.nextId))
        && (e.id.None? ==> r.value.id == Some(old(em.nextId)) && em.rows == old(em.rows) + [Row(old(em.nextId), r.value.fields)]
                           && em.nextId == old(em.nextId) + 1)
  {
    var found := FirstOrNew(em, options);
    if found.Failure? {
      return Failure(found.error);
    }
    var entity := found.value;
    var i := 0;
    while i < |update|
      invariant 0 <= i <= |update|
      invariant entity.id == found.value.id
      invariant Assigned(entity.fields, update[i..]) == Assigned(found.value.fields, update)
    {
      assert update[i..][1..] == update[i + 1..];
      entity := entity.(fields := entity.fields[update[i].0 := update[i].1]);
      i := i + 1;
    }
    assert entity.id.Some? ==> HasRow(em.rows, entity.id.value) by {
      if entity.id.Some? {
        var j :| 0 <= j < |em.rows| && em.rows[j] == Row(entity.id.value, found.value.fields);
      }
    }
    var saved := em.Save(entity);
    return Success(saved);
  }

  /** When nothing matches, the inserted row holds the options overridden by the update. */
  lemma UpdateWinsOverOptions(entries: seq<(Key, Value)>, update: seq<(Key, Value)>)
    ensures Assigned(Created(VArray(entries)).fields, update) == Assigned(map[], entries + update)
  {
    AssignedThen(map[], entries, update);
  }

  /**
   * A second updateOrCreate with the same criteria finds the entity the first one inserted
   * instead of inserting a duplicate, provided the criteria do not name the identifier (which
   * the insert generates) and the update leaves the criteria's keys alone.
   */
  lemma {:induction false} UpdateOrCreateFindsInserted(rows: seq<Row>, entries: seq<(Key, Value)>, update: seq<(Key, Value)>, id: int)
    requires DistinctKeys(entries)
    requires forall j :: 0 <= j < |entries| ==> entries[j].0 != StrKey("id")
    requires NewOrFound(rows, VArray(entries)) == Success(Created(VArray(entries)))
    requires forall j :: 0 <= j < |update| ==> Get(entries, update[j].0).None?
    ensures var row := Row(id, Assigned(Created(VArray(entries)).fields, update));
      NewOrFound(rows + [row], VArray(entries)) == Success(AsRecord(row))
  {
    var created := Created(VArray(entries)).fields;
    var row := Row(id, Assigned(created, update));
    AssignedMeaning(map[], entries);
    AssignedMeaning(created, update);
    forall i | 0 <= i < |entries| ensures Satisfies(row, entries[i]) {
      var k := entries[i].0;
      assert LastFor(entries, i);
      assert Get(entries, k).Some?;
      assert !Sets(update, k);
    }
    assert Matches(row, entries);
    FindByAppended(rows, row, entries);
  }

  /**
   * firstOrCreate: firstOrNew, then save. A found entity is saved unchanged, which leaves the
   * table as it was; otherwise `create($options)` is inserted under a fresh id.
   */
  method FirstOrCreate(em: EntityManager, options: Value := VArray([])) returns (r: Result<Record, Fault>)
    requires em.Valid()
    modifies em
    ensures em.Valid() && em.removed == old(em.removed)
    ensures match NewOrFound(old(em.rows), options)
      case Failure(f) => r == Failure(f) && em.rows == old(em.rows) && em.nextId == old(em.nextId)
      case Success(e) =>
        && r.Success? && r.value.fields == e.fields && r.value.id.Some?
        && Lookup(em.rows, r.value.id.value) == Some(r.value)
        && (e.id.Some? ==> r.value == e && em.rows == old(em.rows) && em.nextId == old(em.nextId))
        && (e.id.None? ==> r.value.id == Some(old(em.nextId)) && em.rows == old(em.rows) + [Row(old(em.nextId), e.fields)]
                           && em.nextId == old(em.nextId) + 1)
  {
    var found := FirstOrNew(em, options);
    if found.Failure? {
      return Failure(found.error);
    }
    var entity := found.value;
    if entity.id.Some? {
      ReplacedUnchanged(em.rows, entity);
      assert HasRow(em.rows, entity.id.value) by {
        var j :| 0 <= j < |em.rows| && em.rows[j] == Row(entity.id.value, entity.fields);
      }
    }
    var saved := em.Save(entity);
    return Success(saved);
  }

  // ---------------------------------------------------------------------------------------
  // destroy
  // ---------------------------------------------------------------------------------------

  /** The entities of a list up to its first null, where `$entity->delete()` throws. */
  function NonNullPrefix(items: seq<Option<Record>>): (r: seq<Record>)
    ensures |r| <= |items|
    ensures forall j :: 0 <= j < |r| ==> items[j] == Some(r[j])
    ensures |r| < |items| ==> items[|r|].None?
  {
    if items == [] || items[0].None? then []
    else
      var rest := NonNullPrefix(items[1..]);
      assert forall j :: 1 <= j < |items| ==> items[j] == items[1..][j - 1];
      [items[0].value] + rest
  }

  /** An element that is not null, reached while no null came before it, belongs to the prefix. */
  lemma NonNullPrefixNext(items: seq<Option<Record>>, i: nat)
    requires i <= |NonNullPrefix(items)| && i < |items| && items[i].Some?
    ensures i < |NonNullPrefix(items)| && NonNullPrefix(items)[i] == items[i].value
  {
  }

  /** A list without nulls is deleted in full. */
  lemma NonNullPrefixOfSomes(records: seq<Record>)
    ensures NonNullPrefix(Somes(records)) == records
  {
  }

  /**
   * destroy: find, then delete each entity of an array result in order, or delete the single
   * result. A null in the result throws when its turn comes, after the entities before it are
   * deleted; a single null result throws before anything is deleted.
   */
  method Destroy(em: EntityManager, options: Value) returns (r: Result<(), Fault>)
    requires em.Valid()
    modifies em
    ensures em.Valid() && em.nextId == old(em.nextId)
    ensures match FindResult(old(em.rows), options)
      case Failure(f) => r == Failure(f) && em.rows == old(em.rows) && em.removed == old(em.removed)
      case Success(One(None)) => r == Failure(NullMethodCall) && em.rows == old(em.rows) && em.removed == old(em.removed)
      case Success(One(Some(x))) => r == Success(()) && em.rows == Drop(old(em.rows), x) && em.removed == old(em.removed) + [x]
      case Success(Many(items)) => DeletedUpToNull(old(em.rows), old(em.removed), items, em.rows, em.removed, r)
  {
    var found := Find(em, options);
    if found.Failure? {
      return Failure(found.error);
    }
    match found.value
    case One(entity) =>
      if entity.None? {
        return Failure(NullMethodCall);
      }
      em.Delete(entity.value);
      return Success(());
    case Many(items) =>
      r := DeleteEach(em, items);
  }

  /** destroy's `foreach ($entities as $entity) $entity->delete();`. */
  method DeleteEach(em: EntityManager, items: seq<Option<Record>>) returns (r: Result<(), Fault>)
    requires em.Valid()
    modifies em
    ensures em.Valid() && em.nextId == old(em.nextId)
    ensures DeletedUpToNull(old(em.rows), old(em.removed), items, em.rows, em.removed, r)
  {
    ghost var done := NonNullPrefix(items);
    var i := 0;
    while i < |items|
      invariant 0 <= i <= |done|
      invariant em.Valid() && em.nextId == old(em.nextId)
      invariant em.removed == old(em.removed) + done[..i]
      invariant em.rows == DropAll(old(em.rows), done[..i])
    {
      if items[i].None? {
        assert done[..i] == done;
        return Failure(NullMethodCall);
      }
      NonNullPrefixNext(items, i);
      DropAllNext(old(em.rows), done, i);
      em.Delete(items[i].value);
      i := i + 1;
    }
    assert done[..i] == done;
    return Success(());
  }

  /** Removing one more entity of a list extends the removals by it. */
  lemma DropAllNext(rows: seq<Row>, dead: seq<Record>, i: nat)
    requires i < |dead|
    ensures dead[..i + 1] == dead[..i] + [dead[i]]
    ensures DropAll(rows, dead[..i + 1]) == Drop(DropAll(rows, dead[..i]), dead[i])
  {
    assert dead[..i + 1][..i] == dead[..i];
  }

  /**
   * The state after destroy deleted the entities of `items` in order, stopping with the Error
   * of `null->delete()` at the first null.
   */
  ghost predicate DeletedUpToNull(rows0: seq<Row>, removed0: seq<Record>, items: seq<Option<Record>>,
                                  rows: seq<Row>, removed: seq<Record>, r: Result<(), Fault>) {
    var done := NonNullPrefix(items);
    && removed == removed0 + done
    && rows == DropAll(rows0, done)
    && (r == Success(()) <==> |done| == |items|)
    && (r != Success(()) ==> r == Failure(NullMethodCall))
  }

  /** A sequence without members is empty. */
  lemma NoMemberEmpty<T>(s: seq<T>)
    ensures (forall x :: x !in s) ==> s == []
  {
    if s != [] {
      assert s[0] in s;
    }
  }

  /** `destroy([])` finds every entity of the class and deletes them all, leaving the table empty. */
  lemma DestroyNothingDeletesAll(rows: seq<Row>)
    ensures FindResult(rows, VArray([])).Success?
    ensures var items := FindResult(rows, VArray([])).value.items;
      NonNullPrefix(items) == AllRecords(rows) && DropAll(rows, AllRecords(rows)) == []
  {
    FindEverything(rows);
    NonNullPrefixOfSomes(AllRecords(rows));
    var all := AllRecords(rows);
    DropAllMembers(rows, all);
    forall x | x in rows ensures !Spared(all, x) {
      var i :| 0 <= i < |rows| && rows[i] == x;
      assert all[i].id == Some(x.id);
    }
    var r := DropAll(rows, all);
    assert forall x :: x !in r;
    NoMemberEmpty(r);
  }

  /** destroy with criteria deletes every matching entity. */
  lemma DestroyByCriteriaDeletesAll(rows: seq<Row>, criteria: seq<(Key, Value)>)
    requires HasStringKeys(criteria)
    ensures FindResult(rows, VArray(criteria)).Success?
    ensures var items := FindResult(rows, VArray(criteria)).value.items;
      NonNullPrefix(items) == FindBy(rows, criteria)
  {
    NonNullPrefixOfSomes(FindBy(rows, criteria));
  }
}
