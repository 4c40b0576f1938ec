/**
 * cycleProtection computes the back references of a related object and toArray hands them to
 * parent::toArray as `$exclude`, but eagerLoad then walks every Serialize property again
 * without looking at `$exclude`. Two Serialize collections that name each other's classes are
 * therefore expanded back and forth without end (ArticleTagDiverges).
 *
 * This module holds the evidently intended serializer, whose eagerLoad skips the properties
 * named in `$exclude`, and proves that it never expands an excluded property and that it
 * finishes on the same graph.
 */
module Guarded {
  import opened Wrappers
  import opened Php
  import opened Serializer

  // ---------------------------------------------------------------------------------------
  // A two-class graph: an article with a Serialize many-to-many `tags`, and the tag's
  // Serialize many-to-many `articles` pointing back at it.
  // ---------------------------------------------------------------------------------------

  function ArticleTagEnv(): Env {
    Env(
      map[0 := Entity("Article", Some(1), [("tags", FieldValue(None, Some([1])))]),
          1 := Entity("Tag", Some(2), [("articles", FieldValue(None, Some([0])))])],
      map[("Article", "tags") := [SerializeMarker, Relation(ManyToMany, "Tag")],
          ("Tag", "articles") := [SerializeMarker, Relation(ManyToMany, "Article")]],
      (e: Entity, exclude: seq<string>) => [])
  }

  lemma ArticleTagClosed()
    ensures Closed(ArticleTagEnv().world)
  {
    var w := ArticleTagEnv().world;
    assert FieldsIn(w[0].fields, w);
    assert FieldsIn(w[1].fields, w);
  }

  /** The source as written: toArray on the article (or the tag) never finishes, whatever the fuel. */
  lemma {:induction false} ArticleTagDiverges(fuel: nat)
    ensures Closed(ArticleTagEnv().world)
    ensures forall exclude :: Serialized(ArticleTagEnv(), 0, exclude, fuel) == None
    ensures forall exclude :: Serialized(ArticleTagEnv(), 1, exclude, fuel) == None
  {
    ArticleTagClosed();
    var env := ArticleTagEnv();
    if fuel > 0 {
      ArticleTagDiverges(fuel - 1);
      forall exclude ensures Serialized(env, 0, exclude, fuel) == None {
        var article := env.world[0];
        var tag := env.world[1];
        assert Excluded(env.meta, tag.cls, tag.fields, "Article") == ["articles"];
        assert Overwritten(env, "Article", [], [1], fuel - 1) == None;
        assert LoadedField(env, "Article", [], article.fields[0], fuel - 1) == None;
      }
      forall exclude ensures Serialized(env, 1, exclude, fuel) == None {
        var article := env.world[0];
        var tag := env.world[1];
        assert Excluded(env.meta, article.cls, article.fields, "Tag") == ["tags"];
        assert Overwritten(env, "Tag", [], [0], fuel - 1) == None;
        assert LoadedField(env, "Tag", [], tag.fields[0], fuel - 1) == None;
      }
    }
  }

  // ---------------------------------------------------------------------------------------
  // The corrected serializer: eagerLoad skips the properties named in `$exclude`.
  // ---------------------------------------------------------------------------------------

  function GuardedSerialized(env: Env, self: Ref, exclude: seq<string>, fuel: nat): Option<Table>
    requires Closed(env.world) && self in env.world
    decreases fuel, 0
  {
    if fuel == 0 then None
    else
      var e := env.world[self];
      GuardedEagerLoaded(env, e.cls, exclude, env.base(e, exclude), e.fields, fuel - 1)
  }

  function GuardedEagerLoaded(env: Env, cls: string, exclude: seq<string>, acc: Table, fields: seq<Field>, fuel: nat): Option<Table>
    requires Closed(env.world) && FieldsIn(fields, env.world)
    decreases fuel, 3, |fields|
  {
    if fields == [] then Some(acc)
    else if fields[0].0 in exclude then GuardedEagerLoaded(env, cls, exclude, acc, fields[1..], fuel)
    else
      match GuardedLoadedField(env, cls, acc, fields[0], fuel)
      case None => None
      case Some(next) => GuardedEagerLoaded(env, cls, exclude, next, fields[1..], fuel)
  }

  function GuardedLoadedField(env: Env, cls: string, acc: Table, field: Field, fuel: nat): Option<Table>
    requires Closed(env.world) && RefsIn(field.1, env.world)
    decreases fuel, 2
  {
    var (key, value) := field;
    if !IsSerialize(env.meta, cls, key) then Some(acc)
    else
      var afterLoad :=
        if value.loads.Some? then
          var target := value.loads.value;
          var item := env.world[target];
          match GuardedSerialized(env, target, Excluded(env.meta, item.cls, item.fields, cls), fuel)
          case None => None
          case Some(sub) => Some(Put(acc, StrKey(key), Nested(sub)))
        else Some(acc);
      if afterLoad.None? then None
      else if value.iterates.Some? then
        match GuardedOverwritten(env, cls, [], value.iterates.value, fuel)
        case None => None
        case Some(coll) => Some(Put(afterLoad.value, StrKey(key), Nested(coll)))
      else afterLoad
  }

  function GuardedOverwritten(env: Env, cls: string, acc: Table, items: seq<Ref>, fuel: nat): Option<Table>
    requires Closed(env.world) && AllIn(items, env.world)
    decreases fuel, 1, |items|
  {
    if items == [] then Some(acc)
    else
      var item := env.world[items[0]];
      match GuardedSerialized(env, items[0], Excluded(env.meta, item.cls, item.fields, cls), fuel)
      case None => None
      case Some(sub) => GuardedOverwritten(env, cls, Put(acc, IdKey(item.id), Nested(sub)), items[1..], fuel)
  }

  lemma {:induction false} GuardedEagerLoadedKeepsExcluded(env: Env, cls: string, exclude: seq<string>, acc: Table, fields: seq<Field>, fuel: nat)
    requires Closed(env.world) && FieldsIn(fields, env.world)
    requires GuardedEagerLoaded(env, cls, exclude, acc, fields, fuel).Some?
    ensures forall name :: name in exclude ==>
      Get(GuardedEagerLoaded(env, cls, exclude, acc, fields, fuel).value, StrKey(name)) == Get(acc, StrKey(name))
    decreases |fields|
  {
    if fields != [] {
      if fields[0].0 in exclude {
        GuardedEagerLoadedKeepsExcluded(env, cls, exclude, acc, fields[1..], fuel);
      } else {
        var next := GuardedLoadedField(env, cls, acc, fields[0], fuel).value;
        assert forall name :: name in exclude ==> Get(next, StrKey(name)) == Get(acc, StrKey(name));
        GuardedEagerLoadedKeepsExcluded(env, cls, exclude, next, fields[1..], fuel);
      }
    }
  }

  /**
   * The intended cycle protection: toArray($exclude) never expands a property that `$exclude`
   * names; its entry, if any, is the one parent::toArray produced.
   */
  lemma GuardedKeepsExcluded(env: Env, self: Ref, exclude: seq<string>, fuel: nat)
    requires Closed(env.world) && self in env.world
    requires GuardedSerialized(env, self, exclude, fuel).Some?
    ensures var e := env.world[self];
      forall name :: name in exclude ==>
        Get(GuardedSerialized(env, self, exclude, fuel).value, StrKey(name)) == Get(env.base(e, exclude), StrKey(name))
  {
    var e := env.world[self];
    GuardedEagerLoadedKeepsExcluded(env, e.cls, exclude, env.base(e, exclude), e.fields, fuel - 1);
  }

  /** With the exclusion honoured, the article serializes with two levels of fuel. */
  lemma ArticleTagGuardedTerminates()
    ensures Closed(ArticleTagEnv().world)
    ensures GuardedSerialized(ArticleTagEnv(), 0, [], 2)
         == Some([(StrKey("tags"), Nested([(IntKey(2), Nested([]))]))])
  {
    ArticleTagClosed();
    var env := ArticleTagEnv();
    var tag := env.world[1];
    assert Excluded(env.meta, tag.cls, tag.fields, "Article") == ["articles"];
    assert GuardedSerialized(env, 1, ["articles"], 1) == Some([]);
    assert GuardedOverwritten(env, "Article", [], [1], 1) == Some([(IntKey(2), Nested([]))]);
  }
}
