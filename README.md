# Spark: a model of the entity/component/event runtime

Spark (`spark.hpp`) is a single-header runtime for games built from entities and components.
This project models it in Dafny and proves what its operations promise:

- **Component type identity.** One shared counter hands each component class one id the first time the class asks for it. The id is cached after that (`ComponentIds`).
- **The event pool.** A FIFO queue of preallocated objects. `getResource` hands out the front one, and the handle's deleter puts it back at the end of the queue (`Pools`).
- **Entities.** A `GameObject` holds at most one component per class id, passes each event to its components in container order, and keeps its own listeners (`Spark.GameObject`).
- **The world.** It has four parts (`Spark.World`):
  - the registry of who listens for which event kind;
  - targeted and broadcast dispatch, with broadcast in ascending entity-id order;
  - the id life cycle: fresh ids come from a counter, and freed ids are reused oldest first;
  - the blueprint table and the blueprint text loader (`Blueprints`, `BlueprintText`).
- **The example game's components** (`example1/src/components.hpp`). A render component overwrites the render data. The damage components each append one `Damage` of their type (`Components`).

Modules:

| file | module | what it holds |
|---|---|---|
| `wrappers.dfy` | `Wrappers` | `Option` |
| `text.dfy` | `Text` | These `std::string` operations: `find` of a character or a string (`None` plays `npos`), `substr` and `erase(remove(...))` |
| `sequences.dfy` | `Sequences` | The `find_if`-with-index search and swap-and-pop, the vector operations the source repeats |
| `ordering.dfy` | `Ordering` | The key order of a `std::map` (ascending under a strict total order) |
| `events.dfy` | `Events` | `Event`, `ALL_GAMEOBJECTS`, and the example game's event kinds and payloads |
| `component_ids.dfy` | `ComponentIds` | `getComponentID` as a `Registry` object |
| `components.dfy` | `Components` | The example game's components and their `fireEvent` |
| `pool.dfy` | `Pools` | `Pool<T>` |
| `blueprints.dfy` | `Blueprints` | The loader's functions: `parseComponent`, `parseBlueprint`, the text clean-up, the splitting loop and the table |
| `blueprint_text.dfy` | `BlueprintText` | The blueprint file format, and the proof that the loader reads back every well-formed object |
| `spark.dfy` | `Spark` | `GameObject`, `Listener` and `World` |
| `scenarios.dfy` | `Scenarios` | How the example program uses the runtime: the sword's blueprint, listening twice, id reuse, and a pooled event |

The code's state is modelled as it is in the source:
- `Pool`, `Registry`, `Event`, `GameObject` and `World` are classes whose methods update their fields in place.
- The string index arithmetic of the loader is modelled by functions. The loops themselves are methods proved equal to those functions.

Freed entity ids are reused oldest first, not smallest first. The world takes `freeIDs[0]` and pushes freed ids at the back (spark.hpp:314-315, 331). `Spark.World.CreateGameObject` and `Scenarios.IdsReusedInFreedOrder` state that FIFO order.

## Model

| member | source | states |
|---|---|---|
| ComponentIds.Registry.constructor | spark.hpp:38 | At program start the counter is 0 and no class has an id |
| ComponentIds.Registry.NextID | spark.hpp:37-40 | `getComponentID()` bumps the shared counter by one and returns its new value |
| ComponentIds.Registry.IdOf | spark.hpp:42-46 | The first call for a class draws `++lastID` and caches it. Later calls return the cached id and leave the counter alone. The id differs from every other class's id |
| Components.NewComponent | example1/src/components.hpp:31-95 | A component gets its class's id. Two components of one class share it, and components of different classes never do. So an entity may hold a `DamageComponent` and a `FireDamageComponent`, but not two of either |
| Components.FireEvent | example1/src/components.hpp:15-91 | A component's `fireEvent` changes the payload as `Handle` says and nothing else of the event; `thrown` is true exactly when `Handle` throws |
| Components.IgnoresOtherKinds | example1/src/components.hpp:26-91 | Every handler leaves the payload unchanged for a kind it does not recognise |
| Components.ThrowsOnMismatch | example1/src/components.hpp:20-86 | A recognised kind with a payload of the wrong struct throws (`bad_any_cast`) and changes nothing |
| Components.RenderOverwrites | example1/src/components.hpp:15-25 | A render component overwrites `symbol`, `name` and `description` with its own values, whatever they held |
| Components.DamageAppendsOne | example1/src/components.hpp:39-91 | A damage component appends exactly one `Damage`, of its own type, after the earlier entries, which stay as they were |
| Components.ThrowStops | spark.hpp:117 | Once a component's cast has thrown, the components after it do not run |
| Components.DamageAccumulates | spark.hpp:117 | For one `EVENT_DEAL_DAMAGE`, every damage component of an entity appends its entry, in container order. Two damage components grow `damageVec` by exactly two |
| Components.RenderLastWins | spark.hpp:117 | For one `EVENT_GET_RENDER_DATA`, the last render component's data is what the payload ends with. With no render component the payload is unchanged |
| Events.Event.constructor | spark.hpp:84-87 | A new pooled event has kind 0, target 0 and an empty payload |
| Pools.Pool.constructor | spark.hpp:81 | A new pool is empty and has handed nothing out |
| Pools.Pool.Add | spark.hpp:69 | The object joins the back of the queue and counts as added |
| Pools.Pool.GetResource | spark.hpp:71-76 | Only a non-empty pool is asked. The front object is handed out and the rest stay in order. The object is recorded as handed out |
| Pools.Pool.Release | spark.hpp:54-60 | Only an object handed out can be given back. It goes to the back of the queue and is no longer handed out. The pool still loses and invents nothing |
| Pools.Pool.Size | spark.hpp:78 | The number of objects waiting |
| Pools.Pool.Empty | spark.hpp:79 | True exactly when no object is waiting |
| Pools.SizeBounded | spark.hpp:54-79 | A pool never holds more objects than were ever added to it |
| Sequences.IndexOf | spark.hpp:129-136 | The `find_if` index: the first element with the key, or none exactly when no element has it |
| Sequences.SwapPopRemovesOne | spark.hpp:137-138 | Swap-and-pop removes exactly the element at `i`. The last element moves into its place and every other position keeps its element |
| Sequences.SwapPopDistinct | spark.hpp:137-138 | Swap-and-pop keeps keys distinct, drops the removed key, and keeps every other key |
| Ordering.Sorted | spark.hpp:369 | The keys of a `std::map` in iteration order: each once, strictly increasing |
| Ordering.AscendingKeys | spark.hpp:369 | Walking a map picks the keys least first, which gives `Sorted` |
| Ordering.IncreasingUnique | spark.hpp:369 | Two increasing listings of the same keys are equal, so the iteration order is fixed by the keys |
| Ordering.StringLessTotal | spark.hpp:199 | `std::string`'s `<` (character by character, a proper prefix first) is a strict total order |
| Spark.WithListener | spark.hpp:296-300 | `addListener` registers the listener unless the entity already has one for that kind, which it then keeps. Every other registration is untouched |
| Spark.WithoutListener | spark.hpp:302-306 | `removeListener` erases only the registration for the pair. `operator[]` still creates the entity's inner map |
| Spark.WithoutObject | spark.hpp:308 | `removeAllListeners` erases every registration of the entity and no other |
| Spark.ListenTwiceRegistersOnce | spark.hpp:296-300 | A second listener for the same entity and kind changes nothing in the registry |
| Spark.Deliver | spark.hpp:275-279 | A targeted event with no listener for the target and kind notifies nobody and leaves the payload as it was |
| Spark.BroadcastStep | spark.hpp:270-274 | A broadcast walks the entities in turn. Each one gets the payload the earlier ones left |
| Spark.BroadcastThrowStops | spark.hpp:270-274 | Once a notified entity's component has thrown, no later entity is notified |
| Spark.BroadcastUnheard | spark.hpp:270-274 | A broadcast that no entity listens for leaves the payload untouched |
| Spark.BroadcastToOne | spark.hpp:268-279 | A broadcast where only the target listens for the kind is the same as an event sent to the target alone |
| Spark.IdsInOrder | spark.hpp:270 | The registry's entity ids in `std::map` order: strictly ascending, each registered entity once |
| Spark.NamesInOrder | spark.hpp:369 | The blueprint names in `std::map` order: ascending, each stored name once |
| Spark.BlueprintNames | spark.hpp:369 | Walking the blueprint map gives its names in ascending order |
| Spark.LookUpAll | spark.hpp:369-370 | The blueprint stored under each name, in the order of the names |
| Spark.IssueKeepsValid | spark.hpp:311-312 | With no free id, `++lastID` is an id no live entity has, and the id bookkeeping stays sound |
| Spark.ReuseKeepsValid | spark.hpp:313-315 | The oldest free id is one no live entity has. Reusing it keeps the bookkeeping sound |
| Spark.ReleaseKeepsValid | spark.hpp:328-332 | Swap-popping a live entity and pushing its id on the free list keeps live ids distinct, and every issued id stays live or free |
| Spark.GameObject.constructor | spark.hpp:173 | A new entity has its world and id, and no components or listeners |
| Spark.GameObject.FireEvent | spark.hpp:117 | The entity's components handle the event in container order, each on the payload the previous one left. A throw ends the walk |
| Spark.GameObject.AddComponent | spark.hpp:120-126 | Requires that no component has the class's id. Appends exactly one component, after which `hasComponent` holds |
| Spark.GameObject.FindComponent | spark.hpp:145-152 | The `find_if`/`++index` search: the position of the first component with the id, or the end exactly when no component has it |
| Spark.GameObject.QueryId | spark.hpp:131-135 | The lambda's `getComponentID<C>()` runs only on an entity with a component. Then the class's id is drawn (a fresh one for a class never asked for); otherwise the counter and the cache stay as they were |
| Spark.GameObject.RemoveComponent | spark.hpp:128-140 | The id is drawn as `QueryId` says. The first component with the class's id is swapped with the last and popped. The others stay, with the same multiset. Afterwards no component has the id. With none, nothing changes |
| Spark.GameObject.GetComponent | spark.hpp:142-155 | The id is drawn as `QueryId` says. The result is the first component with the class's id, or none (`nullptr`) exactly when no component has it |
| Spark.GameObject.HasComponent | spark.hpp:157-164 | The id is drawn as `QueryId` says. True exactly when some component has the class's id |
| Spark.GameObject.ListenForEvent | spark.hpp:379-382 | A local listener is always appended, even for a kind already listened for. The world registers it only when the entity has none for that kind |
| Spark.GameObject.StopListeningForEvent | spark.hpp:384-396 | With a local listener for the kind, the world's registration is erased and the first such listener is swap-popped. Otherwise nothing changes |
| Spark.GameObject.Destroy | spark.hpp:398 | The world destroys the entity with this entity's id, as `DestroyGameObject` states |
| Spark.World.constructor | spark.hpp:375 | A new world has no entities, no registrations, no free ids, `lastID` 0 and no blueprints |
| Spark.World.FireEvent | spark.hpp:268-280 | A `ALL_GAMEOBJECTS` target notifies every registered entity in ascending id order, stopping at a throw (`Broadcast`). Any other id notifies that entity alone if it is registered for the kind (`Deliver`) |
| Spark.World.AddListener | spark.hpp:296-300 | The registry becomes `WithListener`: never overwritten |
| Spark.World.RemoveListener | spark.hpp:302-306 | The registry becomes `WithoutListener` |
| Spark.World.RemoveAllListeners | spark.hpp:308 | The registry becomes `WithoutObject` |
| Spark.World.CreateGameObject | spark.hpp:310-318 | With no free id the entity gets `++lastID`; otherwise it gets the oldest free id, which leaves the front of the list. The id belongs to no live entity. The entity is appended |
| Spark.World.DestroyGameObject | spark.hpp:320-334 | The first entity with the id is swap-popped. Its id joins the back of the free list and its registrations are erased. An unknown id changes nothing |
| Spark.World.ParseComponent | spark.hpp:201-229 | The `parseComponent` loop yields what `Blueprints.ParseComponent` describes |
| Spark.World.ReadArguments | spark.hpp:214-226 | The `do ... while` loop over `key="value"` pairs yields `Blueprints.ParseArguments` |
| Spark.World.ParseBlueprint | spark.hpp:231-265 | The parsed blueprint is stored under its name, replacing the entry there; every other entry stays |
| Spark.World.ReadTags | spark.hpp:247-262 | The `while(end < blueprintEnd)` loop yields `Blueprints.ParseTags` |
| Spark.World.ReadStep | spark.hpp:248-261 | One pass of that loop moves the walk as `Blueprints.NextWalk` says |
| Spark.World.ReadTag | spark.hpp:248-258 | The loop's `if`/`else`: a `component` tag is parsed by `parseComponent`, any other tag gives the name after `Name` |
| Spark.World.LoadBlueprints | spark.hpp:336-363 | The table becomes the old one with the blueprint of every cut block stored in text order. A later blueprint with a name replaces an earlier one |
| Spark.World.LoadBlock | spark.hpp:356-360 | One pass of the splitting loop stores the block's blueprint after those of the blocks before it |
| Spark.World.ReadKeptLines | spark.hpp:341-345 | The kept lines, joined without separators |
| Spark.World.GetBlueprintByName | spark.hpp:365 | A stored name gives its blueprint and changes nothing. An unknown name stores and returns an empty blueprint |
| Spark.World.GetBlueprints | spark.hpp:367-373 | Every stored blueprint, once, in ascending order of the names they are stored under |
| Text.FindChar | spark.hpp:207 | `find(c, from)` gives a position at or after `from` that holds `c` |
| Text.FindCharFirst | spark.hpp:207 | No position before the result holds `c`; a failed search means no position from `from` on holds it |
| Text.FindStr | spark.hpp:206 | `find(p, from)` gives a position at or after `from` where `p` fits in the text |
| Text.FindStrFirst | spark.hpp:206 | `p` occurs at the result, and at no earlier position from `from` on |
| Text.Slice | spark.hpp:210 | `substr(from, to - from)` is the text between the two positions. With `npos` or a wrapped length it is the rest of the text |
| Text.Remove | spark.hpp:347-348 | Erasing a character keeps every other character and leaves none of it |
| Text.RemoveDistributes | spark.hpp:347-348 | Erasing a character from joined text is erasing it from each part |
| Blueprints.PairRead | spark.hpp:215-224 | One pass of the argument loop moves strictly forward in the text |
| Blueprints.PairPass | spark.hpp:214-226 | A pass that goes on leaves the rest to the passes after it |
| Blueprints.ListenName | spark.hpp:254-257 | Reading a listen tag's name moves strictly forward in the text |
| Blueprints.TagRead | spark.hpp:248-258 | Reading a tag does not move backward |
| Blueprints.StepPass | spark.hpp:247-262 | While a tag comes before `</object>`, the loop reads it and goes on from the next `<` |
| Blueprints.NextWalk | spark.hpp:248-261 | A pass of the loop that goes on moves strictly forward in the text |
| Blueprints.StepNext | spark.hpp:247-262 | The loop from a walk is the loop from where one pass leaves it, or fails where that pass fails |
| Blueprints.Header | spark.hpp:235-245 | Reading the object's name leaves the first tag's position inside the text |
| Blueprints.Flatten | spark.hpp:341-348 | The cleaned text holds no tab and no newline |
| Blueprints.ChunksEnd | spark.hpp:353 | At the end of the text the splitting loop cuts nothing |
| Blueprints.ChunkStart | spark.hpp:351-361 | A block ending at the first `</object>` from the start is cut whole, and splitting goes on after it |
| Blueprints.ChunkStep | spark.hpp:353-361 | Each pass of the splitting loop cuts the next block, which runs through its `</object>` |
| Blueprints.ParseAllParsed | spark.hpp:353-361 | When every block parses, there is one blueprint per block, in order |
| Blueprints.StoreNext | spark.hpp:358 | Loading one more block stores its blueprint over what the earlier blocks left |
| Blueprints.StoreOne | spark.hpp:264 | Storing one blueprint stores it under its name |
| Blueprints.StoreAllLastWins | spark.hpp:264 | Of several blueprints with one name, the table keeps the last one stored |
| Blueprints.StoreAllKeeps | spark.hpp:264 | A name that no stored blueprint carries keeps its entry |
| Blueprints.StoreAllKeys | spark.hpp:264 | The names after storing are the old names and the stored blueprints' names |
| BlueprintText.ArgumentsRoundTrip | spark.hpp:214-226 | The argument loop reads back the pairs of well-formed attributes; a repeated key keeps its last value |
| BlueprintText.ComponentRoundTrip | spark.hpp:201-229 | `parseComponent` of a well-formed component tag gives its name and exactly its arguments. `ComponentName` is not an argument |
| BlueprintText.TagsRead | spark.hpp:247-262 | The tag loop over well-formed tags collects their components and events, in text order |
| BlueprintText.ObjectRoundTrip | spark.hpp:231-265 | `parseBlueprint` of a well-formed object's text gives its name, its components and the events it listens for |
| BlueprintText.ChunksOf | spark.hpp:350-362 | The splitting loop cuts the text of several objects into the objects' texts, one each |
| BlueprintText.LoadObjects | spark.hpp:350-362 | The text of several well-formed objects gives one blueprint per object, in order; every block parses |
| BlueprintText.LoadedObject | spark.hpp:264 | After loading, an object's name holds its blueprint when no later object has that name |
| BlueprintText.OneLine | spark.hpp:347-348 | The clean-up leaves the text of well-formed objects unchanged |
| Scenarios.SwordReadsBack | spark.hpp:231-265 | The sword's text parses to the sword's blueprint: `DamageComponent` with `{rolls: "1", sides: "6"}`, listening for `EVENT_DEAL_DAMAGE` |
| Scenarios.SwordFileLoads | spark.hpp:336-363 | Loading a file whose one line is the sword's text stores the sword's blueprint under `Sword` |
| Scenarios.LoadSword | example1/src/main.cpp:27-30 | `loadBlueprints` on that file, then `getBlueprintByName("Sword")`, gives the sword's blueprint |
| Scenarios.AskForIce | example1/src/main.cpp:33 | `getComponent<IceDamageComponent>()` on an entity whose components took their ids from the registry, before any ice component exists, gives none. On an entity with a component it hands the ice class the next id, and on one without it draws nothing |
| Scenarios.ListenTwiceStopOnce | spark.hpp:379-396 | After listening twice for one kind and stopping once, one local listener is left. The world has no registration for the pair, and every other registration is unchanged |
| Scenarios.IdsReusedInFreedOrder | spark.hpp:310-334 | Destroying two new entities, the second one first, makes the next new entity take the second one's id |
| Scenarios.HandOutAndGiveBack | spark.hpp:54-76 | A pooled event handed out and given back moves to the back. The pool keeps its objects and nothing stays handed out |

## Left out

- Spark.World.FireEvent: `Listener::onNotify` is `noexcept` (spark.hpp:182). So in the source, a `bad_any_cast` while dispatching calls `std::terminate`. Here `thrown == true` stands for that end of the program, with the payload as the handlers before the throw left it. Nothing after it is modelled.
- Spark.World.LoadBlueprints: requires every block of the cleaned text to parse. On other text the source adds 1 to an `npos` (spark.hpp:207, 218, 239, 255), which wraps to 0. It then rereads from the start of the block and can loop forever (for example on `<object></object>`). The model does not guess what it produces there.
- Spark.World.ParseBlueprint: requires the block to parse, for the same reason.
- Spark.World.CreateGameObject: requires that a fresh id stays below `ALL_GAMEOBJECTS`. The wrap-around of `++lastID` in `unsigned int` is not modelled.
- Pools.Pool.Release: the deleter's `catch(...)` fallback to `default_delete` (spark.hpp:55-59) is not modelled, because `add` is `noexcept` and never throws. Release is the explicit method. Ownership through `unique_ptr` handles is not modelled.
- Reading the file (`std::ifstream`, `getline`, spark.hpp:337-341): `loadBlueprints` takes the lines already read. A line is kept unless its first character is `#` or a newline, as in the source.
- `std::any`: the payload is the datatype `Payload` over the structs of example1/src/events.hpp:42-58.
- The `Pool<Event>::ptrType` overloads of `fireEvent` (spark.hpp:118, 282-294) are the `Event*` versions over `e.get()`. Dispatch is modelled once.
- `Die::roll`, `std::mt19937` and `uniform_int_distribution` (example1/src/events.hpp:10-25) are randomness. What a die yields is the `roll`/`dice` parameter of the handlers.
- The component's back-link to its owner (`setOwner`, spark.hpp:103 and 125) is not modelled: nothing in the core reads it.
- `unsigned int`, `size_t` and `int` widths are `nat`/`int`. The only bound that matters, `lastID` below `ALL_GAMEOBJECTS`, is a requires. `Pool::size` returns `int` in the source; here it is the queue's length.
- `std::string` characters are Dafny `char`. The loader compares and searches characters only, so no encoding is involved.
- example1/src/main.cpp's printing, `std::stol` conversions and `createFromBlueprint` wiring are demo code. `Scenarios.LoadSword` models only its loading and lookup.
