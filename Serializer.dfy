/**
 * BaseEntity::toArray and its helpers eagerLoad, overwriteCollection and cycleProtection.
 *
 * Reflection and the annotation reader become a static metadata table; entity objects become
 * values in a world of object handles, so that a cyclic object graph can be written down;
 * `parent::toArray($exclude)`, which lives in a class outside this model, is the uninterpreted
 * function `base`. The recursion of toArray is not guaranteed to end, so the serializer is
 * specified with a fuel bound: `None` means "did not finish within `fuel` nested toArray calls".
 */
module Serializer {
  import opened Wrappers
  import opened Php

  /** An object handle. */
  type Ref = nat

  datatype RelationKind = OneToOne | OneToMany | ManyToOne | ManyToMany

  /** The annotations a property may carry, as far as the serializer distinguishes them. */
  datatype Annotation =
    | SerializeMarker                                     // Lempls\Annotations\Serialize
    | Relation(kind: RelationKind, targetEntity: string)  // ORM\OneToOne, \OneToMany, \ManyToOne, \ManyToMany
    | OtherAnnotation(name: string)                       // ORM\Column, ORM\Id, ORM\JoinColumn, ...

  /** (class short name, property name) to the property's annotations, in declaration order. */
  type Metadata = map<(string, string), seq<Annotation>>

  function AnnotationsOf(meta: Metadata, cls: string, property: string): seq<Annotation> {
    if (cls, property) in meta then meta[(cls, property)] else []
  }

  /** `readAnnotation($key, 'Serialize')`. */
  predicate IsSerialize(meta: Metadata, cls: string, property: string): (r: bool)
    ensures r ==> (cls, property) in meta
    ensures r <==> exists i :: 0 <= i < |AnnotationsOf(meta, cls, property)| && AnnotationsOf(meta, cls, property)[i] == SerializeMarker
  {
    SerializeMarker in AnnotationsOf(meta, cls, property)
  }

  /** The annotation is one of the four relation kinds and its targetEntity is `caller`. */
  predicate IsBackReference(a: Annotation, caller: string) {
    a.Relation? && a.targetEntity == caller
  }

  /** The `instanceof` chain: a back reference is one of exactly four annotations. */
  lemma BackReferenceKinds(a: Annotation, caller: string)
    ensures IsBackReference(a, caller) <==>
      a in {Relation(OneToOne, caller), Relation(OneToMany, caller), Relation(ManyToOne, caller), Relation(ManyToMany, caller)}
  {
    if a.Relation? {
      match a.kind
      case OneToOne =>
      case OneToMany =>
      case ManyToOne =>
      case ManyToMany =>
    }
  }

  /**
   * A property value as eagerLoad probes it. `loads` is present when the value has a `__load`
   * method (a Doctrine proxy) and names the entity it stands for; `iterates` is present when
   * the value has an `initialize` method (a Doctrine collection) and lists what iterating it
   * yields. A column value or an already loaded entity answers to neither.
   */
  datatype FieldValue = FieldValue(loads: Option<Ref>, iterates: Option<seq<Ref>>)

  type Field = (string, FieldValue)

  /** An entity object: its class short name, its identifier and its properties in order. */
  datatype Entity = Entity(cls: string, id: Option<int>, fields: seq<Field>)

  type World = map<Ref, Entity>

  /** A serialized value: whatever the base mapping holds, or a nested array. */
  datatype Serial = Leaf(raw: Value) | Nested(entries: seq<(Key, Serial)>)

  type Table = seq<(Key, Serial)>

  /** What serialization depends on: the object graph, the metadata and parent::toArray. */
  datatype Env = Env(world: World, meta: Metadata, base: (Entity, seq<string>) -> Table)

  predicate AllIn(refs: seq<Ref>, w: World) {
    forall j :: 0 <= j < |refs| ==> refs[j] in w
  }

  predicate RefsIn(v: FieldValue, w: World) {
    (v.loads.Some? ==> v.loads.value in w) && (v.iterates.Some? ==> AllIn(v.iterates.value, w))
  }

  predicate FieldsIn(fields: seq<Field>, w: World) {
    forall i :: 0 <= i < |fields| ==> RefsIn(fields[i].1, w)
  }

  /** Every handle in the graph names an object of the graph (PHP references never dangle). */
  predicate Closed(w: World) {
    forall r :: r in w ==> FieldsIn(w[r].fields, w)
  }

  /** `$array[$item->id]`: an integer id is an integer key; a null id is the key "". */
  function IdKey(id: Option<int>): (k: Key)
    ensures k.IntKey? <==> id.Some?
    ensures k.StrKey? ==> k.s == ""
  {
    if id.Some? then IntKey(id.value) else StrKey("")
  }

  /** Distinct ids, null included, are distinct array keys. */
  lemma IdKeyInjective(a: Option<int>, b: Option<int>)
    ensures IdKey(a) == IdKey(b) <==> a == b
  {
    if IdKey(a) == IdKey(b) && a.Some? {
      assert IdKey(a).i == a.value;
    }
  }

  // ---------------------------------------------------------------------------------------
  // Specification functions
  // ---------------------------------------------------------------------------------------

  /** One copy of `property` per annotation in `anns` that is a back reference to `caller`. */
  function Hits(property: string, anns: seq<Annotation>, caller: string): seq<string> {
    if anns == [] then []
    else (if IsBackReference(anns[0], caller) then [property] else []) + Hits(property, anns[1..], caller)
  }

  /** What cycleProtection collects over the properties `fields` of an object of class `cls`. */
  function Excluded(meta: Metadata, cls: string, fields: seq<Field>, caller: string): seq<string> {
    if fields == [] then []
    else Hits(fields[0].0, AnnotationsOf(meta, cls, fields[0].0), caller) + Excluded(meta, cls, fields[1..], caller)
  }

  /** `$obj->toArray($exclude)` for the object `self`, within `fuel` nested toArray calls. */
  function Serialized(env: Env, self: Ref, exclude: seq<string>, fuel: nat): Option<Table>
    requires Closed(env.world) && self in env.world
    decreases fuel, 0
  {
    if fuel == 0 then None
    else
      var e := env.world[self];
      EagerLoaded(env, e.cls, env.base(e, exclude), e.fields, fuel - 1)
  }

  /** The foreach of eagerLoad over the properties `fields` of an object of class `cls`. */
  function EagerLoaded(env: Env, cls: string, acc: Table, fields: seq<Field>, fuel: nat): Option<Table>
    requires Closed(env.world) && FieldsIn(fields, env.world)
    decreases fuel, 3, |fields|
  {
    if fields == [] then Some(acc)
    else
      match LoadedField(env, cls, acc, fields[0], fuel)
      case None => None
      case Some(next) => EagerLoaded(env, cls, next, fields[1..], fuel)
  }

  /** One pass of eagerLoad's loop body: the `__load` branch, then the `initialize` branch. */
  function LoadedField(env: Env, cls: string, acc: Table, field: Field, fuel: nat): Option<Table>
    requires Closed(env.world) && RefsIn(field.1, env.world)
    decreases fuel, 2
  {
    var (key, value) := field;
    if !IsSerialize(env.meta, cls, key) then Some(acc)
    else
      var afterLoad :=
        if value.loads.Some? then
          var target := value.loads.value;
          var item := env.world[target];
          match Serialized(env, target, Excluded(env.meta, item.cls, item.fields, cls), fuel)
          case None => None
          case Some(sub) => Some(Put(acc, StrKey(key), Nested(sub)))
        else Some(acc);
      if afterLoad.None? then None
      else if value.iterates.Some? then
        match Overwritten(env, cls, [], value.iterates.value, fuel)
        case None => None
        case Some(coll) => Some(Put(afterLoad.value, StrKey(key), Nested(coll)))
      else afterLoad
  }

  /** The foreach of overwriteCollection, called from an object of class `cls`. */
  function Overwritten(env: Env, cls: string, acc: Table, items: seq<Ref>, fuel: nat): Option<Table>
    requires Closed(env.world) && AllIn(items, env.world)
    decreases fuel, 1, |items|
  {
    if items == [] then Some(acc)
    else
      var item := env.world[items[0]];
      match Serialized(env, items[0], Excluded(env.meta, item.cls, item.fields, cls), fuel)
      case None => None
      case Some(sub) => Overwritten(env, cls, Put(acc, IdKey(item.id), Nested(sub)), items[1..], fuel)
  }

  // ---------------------------------------------------------------------------------------
  // The operations, as the source runs them
  // ---------------------------------------------------------------------------------------

  /**
   * cycleProtection($item), called on an object of class `caller`: the properties of `item`
   * carrying a relation annotation whose targetEntity is `caller`.
   */
  method CycleProtection(meta: Metadata, caller: string, item: Entity) returns (excluded: seq<string>)
    ensures excluded == Excluded(meta, item.cls, item.fields, caller)
  {
    ghost var goal := Excluded(meta, item.cls, item.fields, caller);
    excluded := [];
    var i := 0;
    while i < |item.fields|
      invariant 0 <= i <= |item.fields|
      invariant excluded + Excluded(meta, item.cls, item.fields[i..], caller) == goal
    {
      var property := item.fields[i].0;
      var annotations := AnnotationsOf(meta, item.cls, property);
      ghost var before := excluded;
      var j := 0;
      while j < |annotations|
        invariant 0 <= j <= |annotations|
        invariant before + Hits(property, annotations, caller) == excluded + Hits(property, annotations[j..], caller)
      {
        ghost var prev := excluded;
        if IsBackReference(annotations[j], caller) {
          excluded := excluded + [property];
        }
        HitsStep(before, prev, excluded, property, annotations, j, caller);
        j := j + 1;
      }
      ExcludedStep(meta, item.cls, item.fields, i, caller, before, excluded, goal);
      i := i + 1;
    }
  }

  /** One pass of cycleProtection's inner loop keeps its invariant. */
  lemma HitsStep(before: seq<string>, prev: seq<string>, next: seq<string>, property: string, anns: seq<Annotation>, j: nat, caller: string)
    requires j < |anns|
    requires before + Hits(property, anns, caller) == prev + Hits(property, anns[j..], caller)
    requires next == prev + if IsBackReference(anns[j], caller) then [property] else []
    ensures before + Hits(property, anns, caller) == next + Hits(property, anns[j + 1..], caller)
  {
    assert anns[j..][1..] == anns[j + 1..];
  }

  /** When the inner loop of cycleProtection ends, the outer invariant holds for the next property. */
  lemma ExcludedStep(meta: Metadata, cls: string, fields: seq<Field>, i: nat, caller: string, before: seq<string>, after: seq<string>, goal: seq<string>)
    requires i < |fields|
    requires before + Excluded(meta, cls, fields[i..], caller) == goal
    requires var anns := AnnotationsOf(meta, cls, fields[i].0);
      before + Hits(fields[i].0, anns, caller) == after + Hits(fields[i].0, anns[|anns|..], caller)
    ensures after + Excluded(meta, cls, fields[i + 1..], caller) == goal
  {
    var anns := AnnotationsOf(meta, cls, fields[i].0);
    var hits := Hits(fields[i].0, anns, caller);
    var rest := Excluded(meta, cls, fields[i + 1..], caller);
    assert anns[|anns|..] == [];
    assert after == before + hits;
    assert fields[i..][1..] == fields[i + 1..];
    assert Excluded(meta, cls, fields[i..], caller) == hits + rest;
    assert (before + hits) + rest == before + (hits + rest);
  }

  /** `$obj->toArray($exclude)`: parent::toArray, then eagerLoad. */
  method ToArray(env: Env, self: Ref, exclude: seq<string>, fuel: nat) returns (r: Option<Table>)
    requires Closed(env.world) && self in env.world
    ensures r == Serialized(env, self, exclude, fuel)
    decreases fuel, 0
  {
    if fuel == 0 {
      return None;
    }
    var e := env.world[self];
    var table := env.base(e, exclude);
    r := EagerLoad(env, e, table, fuel - 1);
  }

  /** eagerLoad($array) on the object `self`. */
  method EagerLoad(env: Env, self: Entity, table0: Table, fuel: nat) returns (r: Option<Table>)
    requires Closed(env.world) && FieldsIn(self.fields, env.world)
    ensures r == EagerLoaded(env, self.cls, table0, self.fields, fuel)
    decreases fuel, 3
  {
    var table := table0;
    var i := 0;
    while i < |self.fields|
      invariant 0 <= i <= |self.fields|
      invariant EagerLoaded(env, self.cls, table, self.fields[i..], fuel) == EagerLoaded(env, self.cls, table0, self.fields, fuel)
    {
      assert self.fields[i..][1..] == self.fields[i + 1..];
      var next := LoadProperty(env, self.cls, table, self.fields[i], fuel);
      if next.None? {
        return None;
      }
      table := next.value;
      i := i + 1;
    }
    return Some(table);
  }

  /** One pass of eagerLoad's foreach, for the property `field` of an object of class `cls`. */
  method LoadProperty(env: Env, cls: string, table0: Table, field: Field, fuel: nat) returns (r: Option<Table>)
    requires Closed(env.world) && RefsIn(field.1, env.world)
    ensures r == LoadedField(env, cls, table0, field, fuel)
    decreases fuel, 2
  {
    var (key, value) := field;
    var table := table0;
    if IsSerialize(env.meta, cls, key) {
      if value.loads.Some? {
        var target := value.loads.value;
        var excluded := CycleProtection(env.meta, cls, env.world[target]);
        var sub := ToArray(env, target, excluded, fuel);
        if sub.None? {
          return None;
        }
        table := Put(table, StrKey(key), Nested(sub.value));
      }
      if value.iterates.Some? {
        var coll := OverwriteCollection(env, cls, value.iterates.value, fuel);
        if coll.None? {
          return None;
        }
        table := Put(table, StrKey(key), Nested(coll.value));
      }
    }
    return Some(table);
  }

  /** overwriteCollection($value), called on an object of class `caller`. */
  method OverwriteCollection(env: Env, caller: string, items: seq<Ref>, fuel: nat) returns (r: Option<Table>)
    requires Closed(env.world) && AllIn(items, env.world)
    ensures r == Overwritten(env, caller, [], items, fuel)
    decreases fuel, 1
  {
    var table: Table := [];
    var i := 0;
    while i < |items|
      invariant 0 <= i <= |items|
      invariant Overwritten(env, caller, table, items[i..], fuel) == Overwritten(env, caller, [], items, fuel)
    {
      var item := env.world[items[i]];
      assert items[i..][1..] == items[i + 1..];
      var excluded := CycleProtection(env.meta, caller, item);
      var sub := ToArray(env, items[i], excluded, fuel);
      if sub.None? {
        return None;
      }
      table := Put(table, IdKey(item.id), Nested(sub.value));
      i := i + 1;
    }
    return Some(table);
  }
}
