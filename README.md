# SmartEntity's BaseEntity, modelled in Dafny

`Lempls\SmartEntity\BaseEntity` is the base class of Doctrine entities in the SmartEntity
package. It adds static finders and factories (`find`, `findOne`, `findOrFail`,
`firstOrFail`, `firstOrNew`, `create`, `updateOrCreate`, `firstOrCreate`, `destroy`,
`findPairs`) and instance methods (`save`, `delete`). It also adds a serializer, `toArray`,
that expands every property marked with the `Serialize` annotation. Its helper
`cycleProtection` computes which properties of a related object point back at the caller.

The model has seven modules:

- **Wrappers**: `Option` and `Result`.
- **Php**: array keys, the PHP values the finders inspect, and PHP's ordered arrays. `Put` models
  `$a[$k] = $v`: it overwrites in place, or appends.
- **Serializer**: `toArray`, `eagerLoad`, `overwriteCollection` and `cycleProtection`.
  - `CycleProtection`, `EagerLoad` and `OverwriteCollection` are methods with loops; the body of
    eagerLoad's loop is the method `LoadProperty`. `ToArray` calls the base mapping and then
    `EagerLoad`.
  - Each method is proved equal to a specification function over an object graph (a world of
    handles), a metadata table standing in for reflection and the annotation reader, and an
    uninterpreted `base` standing in for `parent::toArray`.
  - The recursion need not end, so the specification functions carry fuel: `None` means "not
    finished within that many nested toArray calls".
- **SerializerLemmas**: what the serializer promises. This covers which properties are
  excluded, how a collection is keyed, what eagerLoad rewrites and leaves alone, and that
  fuel is only a bound.
- **Guarded**: the evidently intended serializer, whose eagerLoad honours `$exclude`. It also
  holds a two-class graph on which the code as written never finishes.
- **Persistence**: the one-table store that Doctrine's EntityManager is reduced to. It is a
  class `EntityManager` with `rows`, `nextId` and a ghost log of `remove()` calls. `save` and
  `delete` are its methods.
- **Finders**: the static finders and factories, against that store.
- **Pairs**: the argument resolution of `findPairs`.

Three behaviours of the code that a reader may not expect, all modelled as written:

- `create` assigns every entry of its array argument, integer keys included. It does not
  filter for string keys.
- `findOrFail` never throws for a list of ids. Its result is then a non-empty array, even when
  every element is null.
- `destroy([])` deletes every entity of the class, because `find([])` returns them all.

## Model

| member | source | states |
|---|---|---|
| Php.Put | src/BaseEntity.php:200-204 | `$a[$k] = $v`: afterwards `$a[$k]` is `$v` and every other key reads as before. The length grows only for a new key. Old entries keep their position, and entries with other keys are untouched. |
| Php.PutAppends | src/BaseEntity.php:220 | Assigning to an absent key appends the entry at the end. |
| Php.PutDistinct | src/BaseEntity.php:220 | Assignment never gives a key a second entry. |
| Serializer.IsSerialize | src/BaseEntity.php:196 | `readAnnotation($key, 'Serialize')`: true if and only if the property's annotations include the Serialize marker; a property without metadata is never expanded. |
| Serializer.IdKey | src/BaseEntity.php:220 | `$array[$item->id]`: an integer id is an integer key, and a null id is the key "". |
| Serializer.IdKeyInjective | src/BaseEntity.php:220 | Distinct ids, null included, give distinct keys, so only items with equal ids overwrite each other. |
| Serializer.BackReferenceKinds | src/BaseEntity.php:238-239 | The `instanceof` chain and the targetEntity test: an annotation is a back reference to the caller if and only if it is a OneToOne, OneToMany, ManyToOne or ManyToMany whose targetEntity is the caller's short name. |
| Serializer.CycleProtection | src/BaseEntity.php:231-246 | The nested foreach returns exactly the specification `Excluded` of the item's properties for that caller. |
| Serializer.ToArray | src/BaseEntity.php:182-187 | `toArray($exclude)` is parent::toArray followed by eagerLoad, equal to the specification `Serialized` at the same fuel. |
| Serializer.EagerLoad | src/BaseEntity.php:193-209 | The loop over the properties yields exactly `EagerLoaded`: it fails as soon as a nested toArray does not finish. The `__load` branch writes first and the `initialize` branch after it. |
| Serializer.LoadProperty | src/BaseEntity.php:196-206 | One pass of the loop body yields exactly `LoadedField`: nothing for a property without Serialize, else the nested toArray under cycleProtection for `__load`, then the re-keyed collection for `initialize`. |
| Serializer.OverwriteCollection | src/BaseEntity.php:215-223 | The loop over the collection yields exactly `Overwritten` from the empty array. |
| SerializerLemmas.HitsMembers | src/BaseEntity.php:237-242 | The inner loop adds the property name if and only if some annotation of it is a relation annotation targeting the caller. |
| SerializerLemmas.ExcludedMembers | src/BaseEntity.php:231-246 | A name is excluded if and only if it is a property of the item whose annotations include a OneToOne/OneToMany/ManyToOne/ManyToMany whose targetEntity equals the caller's short name. No other name is ever excluded. |
| SerializerLemmas.ExcludedInOrder | src/BaseEntity.php:236-244 | The exclusions follow the item's property order: those of a concatenation are the concatenation of the exclusions. |
| SerializerLemmas.OverwrittenKeys | src/BaseEntity.php:215-223 | A key is present afterwards if and only if it was before or is some item's id. Keys that are no item's id keep their entries. No key ever appears twice. |
| SerializerLemmas.OverwrittenLastWins | src/BaseEntity.php:218-221 | The entry for an id is the serialization of the last item with that id. |
| SerializerLemmas.CollectionKeyedById | src/BaseEntity.php:215-223 | There is one entry per distinct item id and no other, the last item with an id wins, and an empty collection yields []. |
| SerializerLemmas.LoadedFieldFrame | src/BaseEntity.php:196-206 | One pass of the loop body changes only its own property's entry, and only when that property carries Serialize and has `__load` or `initialize`. A value with both ends up holding the collection. A value with `__load` alone ends up holding the nested toArray of the loaded entity with its cycleProtection. |
| SerializerLemmas.LoadedFieldDistinct | src/BaseEntity.php:200-204 | One pass of the loop body never gives a key a second entry. |
| SerializerLemmas.EagerLoadedFrame | src/BaseEntity.php:193-209 | eagerLoad writes exactly the expanded properties, each present afterwards. Every other entry of the base mapping is unchanged and stays in place. |
| SerializerLemmas.EagerLoadedValues | src/BaseEntity.php:193-209 | After the whole loop, on an object whose property names are distinct, every expanded property holds its expansion: the re-keyed collection for a value with `initialize`, else the nested toArray of the loaded entity under cycleProtection. |
| SerializerLemmas.SerializedIgnoresExclude | src/BaseEntity.php:182-209 | `toArray($exclude)` re-expands every expanded property even when `$exclude` names it: the property holds its collection or the nested toArray of its target, not parent::toArray's entry. All of its other entries are parent::toArray's. |
| SerializerLemmas.SerializedFuel | src/BaseEntity.php:182-187 | A serialization that finishes within some fuel gives the same result with any larger fuel. |
| Guarded.ArticleTagDiverges | src/BaseEntity.php:195-206 | On an Article with Serialize `tags` and a Tag with Serialize `articles` pointing back, toArray of either object never finishes, whatever `$exclude` and the fuel. |
| Guarded.GuardedEagerLoadedKeepsExcluded | src/BaseEntity.php:195-206 | The corrected eagerLoad leaves the entry of every property named in `$exclude` as it found it. |
| Guarded.GuardedKeepsExcluded | src/BaseEntity.php:182-209 | The corrected toArray never expands an excluded property: its entry is the one parent::toArray produced. |
| Guarded.ArticleTagGuardedTerminates | src/BaseEntity.php:182-209 | On the same two-class graph the corrected toArray finishes and nests the tag (keyed by its id) without its `articles`. |
| Persistence.Lookup | src/BaseEntity.php:53 | `EntityManager::find`: an entity if and only if a row has that id, and then it is that row with that id. |
| Persistence.FindBy | src/BaseEntity.php:55 | `findBy`: exactly the rows that match every criterion. A criterion on `id` compares the identifier; any other names a field. |
| Persistence.FindByIdentifier | src/BaseEntity.php:55 | `findBy(['id' => $id])` returns exactly the entity with that id, if the table has one. |
| Persistence.FindOneBy | src/BaseEntity.php:88 | `findOneBy`: the first entity findBy would return, or null when there is none. |
| Persistence.FindByAppended | src/BaseEntity.php:55 | On a table with one more row, findBy returns the old matches followed by the new row if it matches. |
| Persistence.Drop | src/BaseEntity.php:114-115 | remove + flush leaves exactly the rows without the entity's id, and keeps the ids distinct. |
| Persistence.Replaced | src/BaseEntity.php:253-254 | persist + flush of a managed entity keeps every id and puts the entity's fields in its own row. |
| Persistence.LookupReplaced | src/BaseEntity.php:253-254 | After a managed entity is written back, looking up its id yields it. |
| Persistence.LookupAppended | src/BaseEntity.php:253-254 | After a new entity is inserted under a fresh id, looking up that id yields it. |
| Persistence.DropAllMembers | src/BaseEntity.php:127-129 | Deleting a list of entities one by one leaves exactly the rows whose id none of them carries. |
| Persistence.ReplacedUnchanged | src/BaseEntity.php:143-144 | Saving an entity exactly as the table holds it changes nothing. |
| Persistence.AppendedFresh | src/BaseEntity.php:253-254 | An insert under the next id keeps the ids distinct and below the new next id. |
| Persistence.ReplacedKeepsIds | src/BaseEntity.php:253-254 | A write-back keeps the ids distinct and within bound. |
| Persistence.EntityManager.Insert | src/BaseEntity.php:253-254 | A new entity is appended under the next id, which then advances; the entity is found under that id. |
| Persistence.EntityManager.Update | src/BaseEntity.php:253-254 | A managed entity's row takes its fields, and it is found under its id. |
| Persistence.EntityManager.Save | src/BaseEntity.php:251-255 | save keeps the table well formed and the fields as they are. A new entity gets the next id and is appended. A managed one is written over its row. The next id advances on an insert only. Either way the saved entity is found under its id. |
| Persistence.EntityManager.Delete | src/BaseEntity.php:112-116 | delete removes the entity's row and logs one remove() call; the next id is unchanged. |
| Php.IsEmpty | src/BaseEntity.php:298 | PHP's `empty()`: true exactly for null, false, 0, "", "0" and the empty array. |
| Finders.Truthy | src/BaseEntity.php:38 | `!$entity` and `$return == null` (also line 158): a finder result is falsy exactly when it is null or the empty array. |
| Finders.FindById | src/BaseEntity.php:59 | `EntityManager::find` on one element of an id list: an entity if and only if the element is an int id in the table, and then the stored entity with that id. |
| Finders.StringKeys | src/BaseEntity.php:73 | `array_filter(array_keys($a), 'is_string')` holds exactly the string keys of the array. |
| Finders.HasStringKeys | src/BaseEntity.php:72-74 | True if and only if some key of the array is a string. |
| Finders.IdList | src/BaseEntity.php:57-61 | One element per option, in order: the lookup of that option. |
| Finders.Find | src/BaseEntity.php:50-64 | find dispatches exactly as `FindResult`: an int gives one lookup, an array with a string key or the empty array gives findBy, any other array gives the loop's id list, and anything else is a TypeError. |
| Finders.FindEverything | src/BaseEntity.php:54-55 | `find()` and `find([])` return every entity of the class in table order. |
| Finders.FindByCriteria | src/BaseEntity.php:54-55 | find with criteria returns exactly the matching entities, none of them null. |
| Finders.FindIdList | src/BaseEntity.php:56-61 | find with a list of ids returns one element per element, in order. An element is non-null if and only if it is an int id in the table, and it then carries that id. Repeated ids give the same element. |
| Finders.FindOne | src/BaseEntity.php:82-90 | findOne returns one entity or null, never an array. An int gives the lookup of that id. Criteria give null if and only if no row matches them, and otherwise a stored entity that matches them. It fails if and only if the argument is neither an int nor an array. |
| Finders.FindOrFail | src/BaseEntity.php:155-160 | It succeeds if and only if find succeeds with a result that is truthy (neither `[]` nor null), and then returns that result. Otherwise it throws EntityNotFound, or find's own failure. A non-empty id list is always returned, nulls in it included. |
| Finders.FirstOrFail | src/BaseEntity.php:169-174 | As written, it returns exactly what findOne returns. |
| Finders.FirstOrFailReturnsNull | src/BaseEntity.php:172 | On an empty table, firstOrFail with criteria or with an id returns null instead of throwing. |
| Finders.FirstOrFailIntended | src/BaseEntity.php:169-174 | The corrected firstOrFail throws EntityNotFound if and only if findOne finds nothing. When it succeeds, it returns a stored entity. |
| Finders.AssignedMeaning | src/BaseEntity.php:267-269 | After the `__set` loop, the keys are the old ones plus the assigned ones. An assigned key holds the value of the last pair setting it. Every other key keeps its value. |
| Finders.AssignedThen | src/BaseEntity.php:101-104 | Assigning one array and then another is assigning their concatenation. |
| Finders.Create | src/BaseEntity.php:263-272 | create returns a new entity without an id whose fields are `Assigned(map[], options)` for an array, and empty otherwise. |
| Finders.CreatedFields | src/BaseEntity.php:266-270 | For an array argument the new entity's fields are exactly its entries, integer keys included. |
| Finders.NewOrFound | src/BaseEntity.php:36-42 | It fails if and only if findOne fails. An entity with an id is findOne's stored result. An entity without one is `create($options)`, returned only when findOne found nothing. |
| Finders.FirstOrNew | src/BaseEntity.php:36-42 | firstOrNew returns exactly `NewOrFound`. |
| Finders.UpdateOrCreate | src/BaseEntity.php:99-107 | The entity from firstOrNew gets every update entry and is saved. A found entity is written over its row under its own id and the next id stays. A new one is returned with the next id, appended under it, and the next id advances. The saved entity is found under its id. A failure changes nothing. |
| Finders.UpdateWinsOverOptions | src/BaseEntity.php:101-104 | When nothing matches, the inserted fields are the options assigned and then the update, so the update wins on a shared key. |
| Finders.UpdateOrCreateFindsInserted | src/BaseEntity.php:99-107 | After an insert, the same criteria find the inserted entity, provided the criteria do not name the generated `id` and the update leaves the criteria's keys alone. |
| Finders.FirstOrCreate | src/BaseEntity.php:141-146 | A found entity is saved unchanged, and the table and the next id stay as they were. Otherwise `create($options)` is appended under the next id, which advances. A failure changes nothing. |
| Finders.NonNullPrefix | src/BaseEntity.php:127-129 | The entities of a list before its first null, which is where `$entity->delete()` throws. |
| Finders.Destroy | src/BaseEntity.php:123-133 | An array result is deleted entity by entity, in order, up to the first null, where an Error is thrown. A single entity is deleted once. A single null throws before anything is deleted. |
| Finders.DeleteEach | src/BaseEntity.php:127-129 | The foreach deletes the non-null prefix in order. It logs exactly those remove() calls and succeeds if and only if the list holds no null. |
| Finders.DestroyNothingDeletesAll | src/BaseEntity.php:123-133 | `destroy([])` deletes every entity of the class and leaves the table empty. |
| Finders.DestroyByCriteriaDeletesAll | src/BaseEntity.php:123-133 | destroy with criteria deletes exactly findBy's matches. |
| Pairs.ResolvePairs | src/BaseEntity.php:284-300 | The resolved criteria and orderBy are arrays and the key is never empty. Criteria are the first argument if it is an array, else []. The value is the second argument, or the first when the criteria are left out. |
| Pairs.ValueOnly | src/BaseEntity.php:284-300 | `findPairs('name')` resolves to `([], 'name', [], 'id')`. |
| Pairs.ValueAndKey | src/BaseEntity.php:286-296 | `findPairs('name', 'title')` takes 'title' as the key. |
| Pairs.ValueOrderAndKey | src/BaseEntity.php:286-296 | `findPairs('name', $orderBy, 'title')` keeps the array order and takes 'title' as the key. |
| Pairs.Shift | src/BaseEntity.php:286-291 | Without criteria, the arguments move one place left: the result is that of `findPairs([], $criteria, $value, $orderBy)`. |
| Pairs.ShiftDropsFourth | src/BaseEntity.php:286-291 | Without criteria, the fourth argument is never read. |
| Pairs.OrderIsKey | src/BaseEntity.php:293-296 | With criteria, an order that is not an array replaces the fourth argument as the key, and the order becomes []. |
| Pairs.ExplicitKey | src/BaseEntity.php:298-300 | With criteria and an array order, the key is the fourth argument unless PHP's `empty()` holds for it, in which case it is 'id'. |

## Left out

- The query half of `findPairs`: query building, execution and the exception re-wrapping. It is a foreign call with no visible semantics. `all()` is a one-line forward to `findAll`.
- Reflection, the annotation reader and `BaseObject` (`readAnnotation`, `parent::toArray`, `__set`, `getClass`) are not part of this model. They are replaced by a metadata table, an uninterpreted base mapping and a field update.
- Lazy loading: `__load` and `initialize` are side effects in Doctrine. The model treats them as no-ops on a fixed object graph.
- Doctrine itself (`persist`, `flush`, `remove`, `find`, `findBy`, `findOneBy`) is reduced to one in-memory table. The model has no identity map, no flush ordering and no transactions. A `find` with an argument that is not an int counts as not found.
- Serializer.EagerLoad: an entity's `fields` are the properties that `foreach ($this ...)` and `foreach ($item ...)` see from inside BaseEntity. Private properties declared by a subclass are invisible there, so they are never expanded and never excluded; the model does not derive this visibility, it takes the property list as given.
- Finders.Create, Finders.UpdateOrCreate: the model keeps an `id` entry of the options, or of the update, as an ordinary field instead of writing the identifier property through `__set`. The model's identifier stays unset until save, which then assigns the generated id.
- Entities in the finders are values, not objects. Two references to one managed entity, and changes seen through either of them, are not modelled.
- Values carry no floats and no objects. Numeric-string keys are not normalised to integers, as PHP would do.
- Persistence.EntityManager.Save: requires that a saved entity with an id has a row in the table. Doctrine refuses a detached entity, so that case is not modelled.
- Serializer.ToArray: bounded by fuel instead of claiming termination, since the recursion need not end. A run that does not finish within the fuel is `None`.
- Finders.Destroy: the loop over the deletions is the separate method `DeleteEach`. Deletion at a null throws PHP's Error, modelled as `NullMethodCall`.
- Persistence.EntityManager.Save: Doctrine's insert and update are its two methods `Insert` and `Update`.

## Findings

| source | as written | input that shows it | evidently intended | confidence | as-written member | corrected member |
|---|---|---|---|---|---|---|
| src/BaseEntity.php:195-206 | eagerLoad expands every Serialize property and never looks at the `$exclude` computed by cycleProtection | an Article with a Serialize ManyToMany `tags` to a Tag whose Serialize ManyToMany `articles` points back; toArray on the article recurses without end | properties named in `$exclude` are not expanded again | not executed | Guarded.ArticleTagDiverges | Guarded.GuardedKeepsExcluded |
| src/BaseEntity.php:169-174 | `$return === []` compares findOne's object-or-null with the empty array, so the guard never holds | `firstOrFail(['name' => 'x'])` on an empty table returns null | throw EntityNotFoundException when findOne finds nothing | not executed | Finders.FirstOrFailReturnsNull | Finders.FirstOrFailIntended |
