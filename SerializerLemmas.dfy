/**
 * What the serializer promises: which properties cycleProtection excludes, how a collection
 * is keyed, what eagerLoad rewrites and what it leaves alone, and that fuel is only a bound.
 */
module SerializerLemmas {
  import opened Wrappers
  import opened Php
  import opened Serializer

  // ---------------------------------------------------------------------------------------
  // cycleProtection
  // ---------------------------------------------------------------------------------------

  /** Some annotation in `anns` is a relation annotation whose targetEntity is `caller`. */
  predicate PointsBack(anns: seq<Annotation>, caller: string) {
    exists k :: 0 <= k < |anns| && IsBackReference(anns[k], caller)
  }

  lemma {:induction false} HitsMembers(property: string, anns: seq<Annotation>, caller: string, x: string)
    ensures x in Hits(property, anns, caller) <==> x == property && PointsBack(anns, caller)
  {
    if anns != [] {
      HitsMembers(property, anns[1..], caller, x);
      if PointsBack(anns, caller) && !IsBackReference(anns[0], caller) {
        var k :| 0 <= k < |anns| && IsBackReference(anns[k], caller);
        assert anns[1..][k - 1] == anns[k];
      }
      if PointsBack(anns[1..], caller) {
        var k :| 0 <= k < |anns| - 1 && IsBackReference(anns[1..][k], caller);
        assert anns[k + 1] == anns[1..][k];
      }
    }
  }

  /**
   * cycleProtection keeps a property exactly when it is one of the item's properties and
   * carries a OneToOne/OneToMany/ManyToOne/ManyToMany annotation whose targetEntity is the
   * caller's short class name; no other name is ever excluded.
   */
  lemma {:induction false} ExcludedMembers(meta: Metadata, cls: string, fields: seq<Field>, caller: string, x: string)
    ensures x in Excluded(meta, cls, fields, caller)
        <==> exists i :: 0 <= i < |fields| && fields[i].0 == x && PointsBack(AnnotationsOf(meta, cls, x), caller)
  {
    if fields != [] {
      HitsMembers(fields[0].0, AnnotationsOf(meta, cls, fields[0].0), caller, x);
      ExcludedMembers(meta, cls, fields[1..], caller, x);
      if exists i :: 0 <= i < |fields| && fields[i].0 == x && PointsBack(AnnotationsOf(meta, cls, x), caller) {
        var i :| 0 <= i < |fields| && fields[i].0 == x && PointsBack(AnnotationsOf(meta, cls, x), caller);
        if i > 0 {
          assert fields[1..][i - 1] == fields[i];
        }
      }
      if exists i :: 0 <= i < |fields| - 1 && fields[1..][i].0 == x && PointsBack(AnnotationsOf(meta, cls, x), caller) {
        var i :| 0 <= i < |fields| - 1 && fields[1..][i].0 == x && PointsBack(AnnotationsOf(meta, cls, x), caller);
        assert fields[i + 1] == fields[1..][i];
      }
    }
  }

  /** cycleProtection walks the properties in order: the exclusions of a concatenation concatenate. */
  lemma {:induction false} ExcludedInOrder(meta: Metadata, cls: string, front: seq<Field>, back: seq<Field>, caller: string)
    ensures Excluded(meta, cls, front + back, caller) == Excluded(meta, cls, front, caller) + Excluded(meta, cls, back, caller)
  {
    if front != [] {
      assert (front + back)[1..] == front[1..] + back;
      ExcludedInOrder(meta, cls, front[1..], back, caller);
    } else {
      assert front + back == back;
    }
  }

  // ---------------------------------------------------------------------------------------
  // overwriteCollection
  // ---------------------------------------------------------------------------------------

  /** The keys `$item->id` of the items, in order. */
  function ItemKeys(env: Env, items: seq<Ref>): (keys: seq<Key>)
    requires AllIn(items, env.world)
    ensures |keys| == |items|
    ensures forall j :: 0 <= j < |items| ==> keys[j] == IdKey(env.world[items[j]].id)
  {
    if items == [] then [] else [IdKey(env.world[items[0]].id)] + ItemKeys(env, items[1..])
  }

  /** `$item->toArray($this->cycleProtection($item))`, called from an object of class `cls`. */
  function ItemSerialized(env: Env, cls: string, item: Ref, fuel: nat): Option<Table>
    requires Closed(env.world) && item in env.world
  {
    var e := env.world[item];
    Serialized(env, item, Excluded(env.meta, e.cls, e.fields, cls), fuel)
  }

  /**
   * overwriteCollection re-keys the items by id: the result holds the keys of `acc` and one key
   * per item id and nothing else, and an id that no item has keeps its old entry.
   */
  lemma {:induction false} OverwrittenKeys(env: Env, cls: string, acc: Table, items: seq<Ref>, fuel: nat)
    requires Closed(env.world) && AllIn(items, env.world)
    requires Overwritten(env, cls, acc, items, fuel).Some?
    ensures var r := Overwritten(env, cls, acc, items, fuel).value;
      && (DistinctKeys(acc) ==> DistinctKeys(r))
      && (forall k :: Get(r, k).Some? <==> Get(acc, k).Some? || k in ItemKeys(env, items))
      && (forall k :: k !in ItemKeys(env, items) ==> Get(r, k) == Get(acc, k))
    decreases |items|
  {
    if items != [] {
      var item := env.world[items[0]];
      var sub := ItemSerialized(env, cls, items[0], fuel).value;
      var next := Put(acc, IdKey(item.id), Nested(sub));
      if DistinctKeys(acc) {
        PutDistinct(acc, IdKey(item.id), Nested(sub));
      }
      assert ItemKeys(env, items) == [IdKey(item.id)] + ItemKeys(env, items[1..]);
      OverwrittenKeys(env, cls, next, items[1..], fuel);
    }
  }

  /** In overwriteCollection's result the entry for an id is that of the LAST item with that id. */
  lemma {:induction false} OverwrittenLastWins(env: Env, cls: string, acc: Table, items: seq<Ref>, fuel: nat, j: nat)
    requires Closed(env.world) && AllIn(items, env.world)
    requires Overwritten(env, cls, acc, items, fuel).Some?
    requires j < |items| && ItemKeys(env, items)[j] !in ItemKeys(env, items)[j + 1..]
    ensures ItemSerialized(env, cls, items[j], fuel).Some?
    ensures Get(Overwritten(env, cls, acc, items, fuel).value, ItemKeys(env, items)[j])
         == Some(Nested(ItemSerialized(env, cls, items[j], fuel).value))
    decreases |items|
  {
    var item := env.world[items[0]];
    var sub := ItemSerialized(env, cls, items[0], fuel).value;
    var next := Put(acc, IdKey(item.id), Nested(sub));
    var keys := ItemKeys(env, items);
    assert keys == [IdKey(item.id)] + ItemKeys(env, items[1..]);
    if j > 0 {
      assert items[1..][j - 1] == items[j];
      assert ItemKeys(env, items[1..])[j - 1 + 1..] == keys[j + 1..];
      OverwrittenLastWins(env, cls, next, items[1..], fuel, j - 1);
    } else {
      assert keys[1..] == ItemKeys(env, items[1..]);
      OverwrittenKeys(env, cls, next, items[1..], fuel);
    }
  }

  /**
   * overwriteCollection($value) yields one entry per distinct item id and no other, with the
   * serialization of the last item carrying that id; an empty collection yields [].
   */
  lemma CollectionKeyedById(env: Env, cls: string, items: seq<Ref>, fuel: nat)
    requires Closed(env.world) && AllIn(items, env.world)
    requires Overwritten(env, cls, [], items, fuel).Some?
    ensures var r := Overwritten(env, cls, [], items, fuel).value;
      && DistinctKeys(r)
      && (forall k :: Get(r, k).Some? <==> k in ItemKeys(env, items))
      && (forall j :: 0 <= j < |items| && ItemKeys(env, items)[j] !in ItemKeys(env, items)[j + 1..] ==>
            ItemSerialized(env, cls, items[j], fuel).Some? &&
            Get(r, ItemKeys(env, items)[j]) == Some(Nested(ItemSerialized(env, cls, items[j], fuel).value)))
      && (items == [] ==> r == [])
  {
    OverwrittenKeys(env, cls, [], items, fuel);
    forall j | 0 <= j < |items| && ItemKeys(env, items)[j] !in ItemKeys(env, items)[j + 1..]
      ensures ItemSerialized(env, cls, items[j], fuel).Some?
      ensures Get(Overwritten(env, cls, [], items, fuel).value, ItemKeys(env, items)[j])
           == Some(Nested(ItemSerialized(env, cls, items[j], fuel).value))
    {
      OverwrittenLastWins(env, cls, [], items, fuel, j);
    }
  }

  // ---------------------------------------------------------------------------------------
  // eagerLoad
  // ---------------------------------------------------------------------------------------

  /** eagerLoad rewrites this property: it carries Serialize and has `__load` or `initialize`. */
  predicate Expands(meta: Metadata, cls: string, field: Field) {
    IsSerialize(meta, cls, field.0) && (field.1.loads.Some? || field.1.iterates.Some?)
  }

  /** The keys eagerLoad writes, for the properties `fields` of an object of class `cls`. */
  function ExpandedKeys(meta: Metadata, cls: string, fields: seq<Field>): seq<Key> {
    if fields == [] then []
    else (if Expands(meta, cls, fields[0]) then [StrKey(fields[0].0)] else []) + ExpandedKeys(meta, cls, fields[1..])
  }

  /**
   * One pass of eagerLoad's loop body changes at most the entry of its own property, and only
   * when that property is expanded; the collection branch writes last, so a value with both
   * `__load` and `initialize` ends up holding the collection.
   */
  lemma LoadedFieldFrame(env: Env, cls: string, acc: Table, field: Field, fuel: nat)
    requires Closed(env.world) && RefsIn(field.1, env.world)
    requires LoadedField(env, cls, acc, field, fuel).Some?
    ensures var r := LoadedField(env, cls, acc, field, fuel).value;
      && (!Expands(env.meta, cls, field) ==> r == acc)
      && (forall k :: k != StrKey(field.0) ==> Get(r, k) == Get(acc, k))
      && |acc| <= |r|
      && (forall i :: 0 <= i < |acc| ==> r[i].0 == acc[i].0 && (acc[i].0 != StrKey(field.0) ==> r[i] == acc[i]))
      && (Expands(env.meta, cls, field) && field.1.iterates.Some? ==>
            Overwritten(env, cls, [], field.1.iterates.value, fuel).Some? &&
            Get(r, StrKey(field.0)) == Some(Nested(Overwritten(env, cls, [], field.1.iterates.value, fuel).value)))
      && (Expands(env.meta, cls, field) && field.1.iterates.None? ==>
            var target := field.1.loads.value;
            var item := env.world[target];
            Serialized(env, target, Excluded(env.meta, item.cls, item.fields, cls), fuel).Some? &&
            Get(r, StrKey(field.0)) == Some(Nested(Serialized(env, target, Excluded(env.meta, item.cls, item.fields, cls), fuel).value)))
  {
    var (key, value) := field;
    if IsSerialize(env.meta, cls, key) && value.loads.Some? {
      var target := value.loads.value;
      var item := env.world[target];
      assert Serialized(env, target, Excluded(env.meta, item.cls, item.fields, cls), fuel).Some?;
    }
  }

  /** One pass of eagerLoad's loop body never gives a key a second entry. */
  lemma LoadedFieldDistinct(env: Env, cls: string, acc: Table, field: Field, fuel: nat)
    requires Closed(env.world) && RefsIn(field.1, env.world)
    requires LoadedField(env, cls, acc, field, fuel).Some?
    requires DistinctKeys(acc)
    ensures DistinctKeys(LoadedField(env, cls, acc, field, fuel).value)
  {
    var (key, value) := field;
    if IsSerialize(env.meta, cls, key) {
      var afterLoad := acc;
      if value.loads.Some? {
        var target := value.loads.value;
        var item := env.world[target];
        var sub := Serialized(env, target, Excluded(env.meta, item.cls, item.fields, cls), fuel).value;
        PutDistinct(acc, StrKey(key), Nested(sub));
        afterLoad := Put(acc, StrKey(key), Nested(sub));
      }
      if value.iterates.Some? {
        var coll := Overwritten(env, cls, [], value.iterates.value, fuel).value;
        PutDistinct(afterLoad, StrKey(key), Nested(coll));
      }
    }
  }

  /**
   * eagerLoad writes exactly the expanded properties and leaves every other entry of the base
   * mapping unchanged and in place; an expanded property is present afterwards whether or not
   * the base mapping had it.
   */
  lemma {:induction false} EagerLoadedFrame(env: Env, cls: string, acc: Table, fields: seq<Field>, fuel: nat)
    requires Closed(env.world) && FieldsIn(fields, env.world)
    requires EagerLoaded(env, cls, acc, fields, fuel).Some?
    ensures var r := EagerLoaded(env, cls, acc, fields, fuel).value;
      && (forall k :: k !in ExpandedKeys(env.meta, cls, fields) ==> Get(r, k) == Get(acc, k))
      && (forall k :: k in ExpandedKeys(env.meta, cls, fields) ==> Get(r, k).Some?)
      && |acc| <= |r|
      && (forall i :: 0 <= i < |acc| ==> r[i].0 == acc[i].0 && (acc[i].0 !in ExpandedKeys(env.meta, cls, fields) ==> r[i] == acc[i]))
      && (DistinctKeys(acc) ==> DistinctKeys(r))
    decreases |fields|
  {
    if fields != [] {
      LoadedFieldFrame(env, cls, acc, fields[0], fuel);
      if DistinctKeys(acc) {
        LoadedFieldDistinct(env, cls, acc, fields[0], fuel);
      }
      var next := LoadedField(env, cls, acc, fields[0], fuel).value;
      EagerLoadedFrame(env, cls, next, fields[1..], fuel);
      var r := EagerLoaded(env, cls, acc, fields, fuel).value;
      forall k | k in ExpandedKeys(env.meta, cls, fields) ensures Get(r, k).Some? {
        if k !in ExpandedKeys(env.meta, cls, fields[1..]) {
          assert Get(r, k) == Get(next, k);
        }
      }
    }
  }

  /** No property name occurs twice, as in every PHP object. */
  predicate DistinctNames(fields: seq<Field>) {
    forall i, j :: 0 <= i < j < |fields| ==> fields[i].0 != fields[j].0
  }

  /**
   * What eagerLoad stores for an expanded property of an object of class `cls`: the re-keyed
   * collection when the value has `initialize` (that branch writes last), else the nested
   * toArray of the loaded entity under cycleProtection.
   */
  function Expansion(env: Env, cls: string, field: Field, fuel: nat): Option<Table>
    requires Closed(env.world) && RefsIn(field.1, env.world)
    requires field.1.loads.Some? || field.1.iterates.Some?
  {
    if field.1.iterates.Some? then Overwritten(env, cls, [], field.1.iterates.value, fuel)
    else
      var target := field.1.loads.value;
      var item := env.world[target];
      Serialized(env, target, Excluded(env.meta, item.cls, item.fields, cls), fuel)
  }

  /** Only the names of the properties can be expanded keys. */
  lemma {:induction false} ExpandedKeysNamed(meta: Metadata, cls: string, fields: seq<Field>, x: string)
    ensures StrKey(x) in ExpandedKeys(meta, cls, fields) ==> exists i :: 0 <= i < |fields| && fields[i].0 == x
  {
    if fields != [] && StrKey(x) in ExpandedKeys(meta, cls, fields) && fields[0].0 != x {
      ExpandedKeysNamed(meta, cls, fields[1..], x);
      var i :| 0 <= i < |fields[1..]| && fields[1..][i].0 == x;
      assert fields[i + 1].0 == x;
    }
  }

  /**
   * After eagerLoad, every expanded property holds its expansion: the collection for a value
   * with `initialize`, else the nested toArray of the loaded entity.
   */
  lemma {:induction false} EagerLoadedValues(env: Env, cls: string, acc: Table, fields: seq<Field>, fuel: nat)
    requires Closed(env.world) && FieldsIn(fields, env.world) && DistinctNames(fields)
    requires EagerLoaded(env, cls, acc, fields, fuel).Some?
    ensures forall i :: 0 <= i < |fields| && Expands(env.meta, cls, fields[i]) ==>
      Expansion(env, cls, fields[i], fuel).Some? &&
      Get(EagerLoaded(env, cls, acc, fields, fuel).value, StrKey(fields[i].0)) == Some(Nested(Expansion(env, cls, fields[i], fuel).value))
    decreases |fields|
  {
    if fields != [] {
      var r := EagerLoaded(env, cls, acc, fields, fuel).value;
      var tail := fields[1..];
      LoadedFieldFrame(env, cls, acc, fields[0], fuel);
      var next := LoadedField(env, cls, acc, fields[0], fuel).value;
      assert FieldsIn(tail, env.world) && DistinctNames(tail) by {
        assert forall i :: 0 <= i < |tail| ==> tail[i] == fields[i + 1];
      }
      EagerLoadedFrame(env, cls, next, tail, fuel);
      EagerLoadedValues(env, cls, next, tail, fuel);
      forall i | 0 <= i < |fields| && Expands(env.meta, cls, fields[i])
        ensures Expansion(env, cls, fields[i], fuel).Some?
        ensures Get(r, StrKey(fields[i].0)) == Some(Nested(Expansion(env, cls, fields[i], fuel).value))
      {
        if i == 0 {
          ExpandedKeysNamed(env.meta, cls, tail, fields[0].0);
        } else {
          assert tail[i - 1] == fields[i];
        }
      }
    }
  }

  /**
   * toArray($exclude) consults `$exclude` only through parent::toArray: every expanded
   * property is re-expanded even when `$exclude` names it, holding the collection or the
   * nested toArray of its target, and every other entry is the base mapping's.
   */
  lemma SerializedIgnoresExclude(env: Env, self: Ref, exclude: seq<string>, fuel: nat)
    requires Closed(env.world) && self in env.world
    requires Serialized(env, self, exclude, fuel).Some?
    ensures var e := env.world[self];
      var r := Serialized(env, self, exclude, fuel).value;
      && (forall k :: k in ExpandedKeys(env.meta, e.cls, e.fields) ==> Get(r, k).Some?)
      && (forall k :: k !in ExpandedKeys(env.meta, e.cls, e.fields) ==> Get(r, k) == Get(env.base(e, exclude), k))
      && (DistinctNames(e.fields) ==> forall i :: 0 <= i < |e.fields| && Expands(env.meta, e.cls, e.fields[i]) ==>
            Expansion(env, e.cls, e.fields[i], fuel - 1).Some? &&
            Get(r, StrKey(e.fields[i].0)) == Some(Nested(Expansion(env, e.cls, e.fields[i], fuel - 1).value)))
  {
    var e := env.world[self];
    EagerLoadedFrame(env, e.cls, env.base(e, exclude), e.fields, fuel - 1);
    if DistinctNames(e.fields) {
      EagerLoadedValues(env, e.cls, env.base(e, exclude), e.fields, fuel - 1);
    }
  }

  // ---------------------------------------------------------------------------------------
  // Fuel is only a bound
  // ---------------------------------------------------------------------------------------

  lemma SerializedFuel(env: Env, self: Ref, exclude: seq<string>, fuel: nat, more: nat)
    requires Closed(env.world) && self in env.world
    requires fuel <= more && Serialized(env, self, exclude, fuel).Some?
    ensures Serialized(env, self, exclude, more) == Serialized(env, self, exclude, fuel)
    decreases fuel, 0
  {
    var e := env.world[self];
    EagerLoadedFuel(env, e.cls, env.base(e, exclude), e.fields, fuel - 1, more - 1);
  }

  lemma EagerLoadedFuel(env: Env, cls: string, acc: Table, fields: seq<Field>, fuel: nat, more: nat)
    requires Closed(env.world) && FieldsIn(fields, env.world)
    requires fuel <= more && EagerLoaded(env, cls, acc, fields, fuel).Some?
    ensures EagerLoaded(env, cls, acc, fields, more) == EagerLoaded(env, cls, acc, fields, fuel)
    decreases fuel, 3, |fields|
  {
    if fields != [] {
      LoadedFieldFuel(env, cls, acc, fields[0], fuel, more);
      var next := LoadedField(env, cls, acc, fields[0], fuel).value;
      EagerLoadedFuel(env, cls, next, fields[1..], fuel, more);
    }
  }

  lemma LoadedFieldFuel(env: Env, cls: string, acc: Table, field: Field, fuel: nat, more: nat)
    requires Closed(env.world) && RefsIn(field.1, env.world)
    requires fuel <= more && LoadedField(env, cls, acc, field, fuel).Some?
    ensures LoadedField(env, cls, acc, field, more) == LoadedField(env, cls, acc, field, fuel)
    decreases fuel, 2
  {
    var (key, value) := field;
    if IsSerialize(env.meta, cls, key) {
      if value.loads.Some? {
        var target := value.loads.value;
        var item := env.world[target];
        SerializedFuel(env, target, Excluded(env.meta, item.cls, item.fields, cls), fuel, more);
      }
      if value.iterates.Some? {
        OverwrittenFuel(env, cls, [], value.iterates.value, fuel, more);
      }
    }
  }

  lemma OverwrittenFuel(env: Env, cls: string, acc: Table, items: seq<Ref>, fuel: nat, more: nat)
    requires Closed(env.world) && AllIn(items, env.world)
    requires fuel <= more && Overwritten(env, cls, acc, items, fuel).Some?
    ensures Overwritten(env, cls, acc, items, more) == Overwritten(env, cls, acc, items, fuel)
    decreases fuel, 1, |items|
  {
    if items != [] {
      var item := env.world[items[0]];
      var exclude := Excluded(env.meta, item.cls, item.fields, cls);
      SerializedFuel(env, items[0], exclude, fuel, more);
      var sub := Serialized(env, items[0], exclude, fuel).value;
      OverwrittenFuel(env, cls, Put(acc, IdKey(item.id), Nested(sub)), items[1..], fuel, more);
    }
  }
}
