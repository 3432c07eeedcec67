# AceLand Pool: the pool controller in Dafny

This project models `Pool<T>`, the object-pool controller of the AceLand Pool
package for Unity, and proves properties of the model. A pool hands out
instances of one prefab and takes them back, so they are reused instead of
being instantiated and destroyed over and over.

It models four parts:

- **The controller** (`Pooling.Pool`). It keeps the *checked-out registry*,
  the items that are currently handed out. It drives a *store* of idle items
  through four hook callbacks: create, take, return and destroy. It exposes
  `Get`, `Release`, `ReleaseRandom`, `ReleaseAll`, `Clear` and the dispose path.
- **The store** (`Pooling.ItemStore`). This is Unity's `ObjectPool<T>` for the
  Stack discipline or `LinkedPool<T>` for the LinkedList discipline. Their
  source is not part of this model. Their behaviour is an assumed contract,
  written once as functions in `PoolModel`:
  - `Get` takes the idle item released last, or creates one when none is idle, then runs the take hook;
  - `Release` rejects an item that is already idle when collection checks are on;
    otherwise it runs the return hook, keeps the item while fewer than `maxSize` items are idle, and destroys it if not;
  - `Clear` runs the destroy hook on every idle item and forgets them all.
- **The settings** (`Settings.PoolSettings`). This is a value type. Only its two
  parent fields have setters.
- **The two-stage builder** (`Construction.PoolBuilder`). It feeds the constructor.

Files:

- `types.dfy`: items, parents, events and errors.
  - An item is a `class Item`. Instantiating a prefab allocates a fresh object, so two items are equal exactly when they are the same object.
- `registry.dfy`: the registry as a `seq<Item>`, with the `Contains`/`Add` and `Remove` updates the hooks make to it.
- `settings.dfy`: the settings value, its setters and the constructor's parent overrides.
- `pool_model.dfy`: the specification of one pool as a value.
  - The value is a `World`: the registry, the idle items, the objects the engine reports as null, and a log of the engine side effects.
  - The pool only reads the null set. `Object.Destroy` takes effect at the end of the frame, so a destroyed object is not null until the engine says so through `FrameEnd`.
  - Every hook and store operation is a function on a `World`.
  - The lemmas about the pool are proved on these functions.
- `pool.dfy`: the store and controller classes.
  - Every method's postcondition ties its new state to the `PoolModel` function of its old state.
  - The pool's `Valid()` includes the pool invariant `Inv` and conservation (`Conserved`): every item the pool instantiated is checked out, idle, null, or was passed to `Object.Destroy`.
  - `NewPool`, `NewPoolFromSettings` and `NewPoolWithParents` are the constructors, with an error result for an undeclared pool type.
- `builder.dfy`: the builder.

Engine side effects are recorded as `Event`s in a ghost log. These effects are
`Object.Instantiate`, `SetParent`, `SetActive`, the `IPoolItem` notifications
and `Object.Destroy`. Hook order is stated on that log.

Exceptions are modelled as error results:

- the store's duplicate-release check gives `Fail(DuplicateRelease)`;
- the list indexer in `ReleaseRandom` on an empty registry gives `Fail(IndexOutOfRange)`;
- the constructor's `ArgumentOutOfRangeException` gives `Failure(PoolTypeOutOfRange)`.

A single `Get`, `Release` or `ReleaseRandom` that fails leaves the state
unchanged. In `ReleaseAll`, and so in the dispose path, the first failure ends
the loop, just as an exception leaves a `foreach` loop, and the releases before
the failing one stand.

## Model

| member | source | states |
|---|---|---|
| Registry.AddIfAbsent | Runtime/Pool.cs:104 | the item is registered afterwards; earlier entries keep their places; the members grow by exactly the item; a duplicate-free registry stays duplicate-free |
| Registry.Remove | Runtime/Pool.cs:96 | an absent item leaves the registry unchanged; otherwise exactly one occurrence of the item leaves, as a multiset |
| Registry.RemoveKeepsOrder | Runtime/Pool.cs:96 | for a registered item, only the entry at its first occurrence is deleted, and the rest keep their order |
| Registry.RemoveNoDups | Runtime/Pool.cs:96 | on a duplicate-free registry, removal leaves it duplicate-free and takes the item out completely |
| Registry.RemoveMembers | Runtime/Pool.cs:96 | on a duplicate-free registry, removal takes exactly the item out of the set of checked-out items |
| Registry.DistinctCount | Runtime/Pool.cs:20 | without duplicates, the registry's length equals the number of distinct checked-out items |
| Registry.AddIfAbsentIdempotent | Runtime/Pool.cs:85-105 | registering an already registered item changes nothing, so the create hook followed by the take hook registers a new item once |
| Registry.RemoveFirst | Runtime/Pool.cs:80-82 | releasing the head of a duplicate-free registry leaves exactly its tail |
| Settings.PoolSettings.SetPoolParent | Runtime/PoolSettings.cs:26 | the pool parent becomes the argument; the target parent and every read-only field are unchanged |
| Settings.PoolSettings.SetTargetParent | Runtime/PoolSettings.cs:27 | the target parent becomes the argument; the pool parent and every read-only field are unchanged |
| Settings.SettersKeepReadOnlyFields | Runtime/PoolSettings.cs:18-27 | no sequence of setter calls changes the prefab, pool type, prewarm size, maximum size or collection-checks flag |
| Settings.LastSetterCallWins | Runtime/PoolSettings.cs:26-27 | after any sequence of setter calls, each parent is the one its last setter call passed, or the initial one if there is none |
| Settings.SettersCommute | Runtime/PoolSettings.cs:26-27 | the two setters applied in either order give the same settings value |
| Settings.WithParentOverrides | Runtime/Pool_Constructor.cs:12-14 | each parent is overridden exactly when a non-null one is passed; read-only fields are kept; with two null parents the settings are unchanged |
| PoolModel.StoreConfigFor | Runtime/Pool_Constructor.cs:16-21 | it fails with an out-of-range error exactly for an undeclared pool type; Stack gives the stack store with checks, prewarm size as capacity, and maximum size; LinkedList gives the linked store with checks and maximum size only |
| PoolModel.Top | Runtime/Pool_Constructor.cs:18-19 | the item `Get` takes next is one of the idle items |
| PoolModel.Pop | Runtime/Pool_Constructor.cs:18-19 | taking the next item removes exactly that item from the idle items, and keeps them duplicate-free |
| PoolModel.Push | Runtime/Pool_Constructor.cs:18-19 | keeping an item adds exactly that item to the idle items, and keeps them duplicate-free when it was not idle |
| PoolModel.PushThenTop | Runtime/Pool_Constructor.cs:18-19 | both disciplines give back the item kept last, and restore the idle items |
| PoolModel.DestroyHook | Runtime/Pool.cs:107-111 | an item the engine reports as null is left alone and nothing changes; any other item gets one `Object.Destroy` call, even if one was already made this frame; the registry, the store and the null set are never touched |
| PoolModel.GetKeepsInv | Runtime/Pool.cs:67 | `Get` preserves the pool invariant: a duplicate-free registry, at most `maxSize` idle items and, with collection checks, no item idle twice or both idle and checked out |
| PoolModel.GetTakesAndRegisters | Runtime/Pool.cs:85-105 | `Get` logs the take hook's reparent, activate and notify in that order; the item is the next idle one or a new one under the pool parent; it is registered exactly once |
| PoolModel.ReleaseKeepsInv | Runtime/Pool.cs:68-71 | `Release` preserves the pool invariant, whether it succeeds or is rejected |
| PoolModel.ReleaseReturnsOrDestroys | Runtime/Pool.cs:91-97 | `Release` is rejected exactly when checks are on and the item is idle, and then nothing changes; otherwise it logs deactivate, reparent to the pool parent and notify in that order, unregisters the item, and keeps it when fewer than `maxSize` are idle, or else calls `Object.Destroy` on it unless it is null; the null set is unchanged |
| PoolModel.DoubleReleaseRejected | Runtime/Pool.cs:68-71 | with collection checks, releasing an item that the store kept a second time is rejected and changes nothing |
| PoolModel.SecondReleaseAfterDestroyPasses | Runtime/Pool.cs:68-71 | when the store is full, the released item is passed to `Object.Destroy`, so a second release in the same frame is not rejected, notifies it again and calls `Object.Destroy` on it a second time |
| PoolModel.ReleaseThenGetReturnsSameItem | Runtime/Pool.cs:67-71 | `Get` right after a `Release` that kept the item returns that item |
| PoolModel.ReleaseEachOfRegistry | Runtime/Pool.cs:78-83 | releasing the registry's snapshot succeeds and leaves the registry empty and the invariant intact; the idle count is the old one plus the snapshot, capped at `maxSize` |
| PoolModel.ReleaseLog | Runtime/Pool.cs:91-97 | a release that is not rejected appends exactly the return hook's events and, when the store is full and the item is not null, one `Destroy` call |
| PoolModel.ReleaseNotifiesOnce | Runtime/Pool.cs:91-97 | a successful release only appends to the log, and the appended part holds exactly one return notice, for that item |
| PoolModel.ReleaseEachNotifiesOnce | Runtime/Pool.cs:78-83 | releasing a snapshot only appends to the log, and the return notices appended are the snapshot's items, each once, in order |
| PoolModel.DestroyEachDestroys | Runtime/Pool.cs:62-65 | running the destroy hook over a list appends one `Object.Destroy` call per non-null entry, in order and with repeats, and changes nothing else |
| PoolModel.LiveEntries | Runtime/Pool.cs:109 | the entries that get a `Destroy` call are exactly the non-null ones; with no null entry, all of them |
| PoolModel.DestroyCallsIndex | Runtime/Pool.cs:110 | the calls appended are one per entry, the i-th for the i-th entry |
| PoolModel.ClearDestroysIdleOnly | Runtime/Pool.cs:62-65 | `Clear` empties the store, calls `Object.Destroy` once per non-null idle entry in order, and changes neither the registry nor the null set |
| PoolModel.ClearSparesCheckedOut | Runtime/Pool.cs:62-65 | with collection checks and the invariant, every `Destroy` call that `Clear` appends is for an item that is not checked out |
| PoolModel.ClearDestroysCheckedOutWithoutChecks | Runtime/Pool.cs:62-65 | without collection checks, the sequence Get, Release, Release, Get on one item leaves it checked out and idle at once, and `Clear` then calls `Destroy` on it while it stays in the registry |
| PoolModel.ReleaseForeignAccepted | Runtime/Pool.cs:68-71 | releasing an item that is neither checked out nor idle passes: the return hook runs and the registry is unchanged |
| PoolModel.ClearDestroysRepeatedEntryTwice | Runtime/Pool.cs:107-111 | an item idle twice, which only a store without collection checks allows, gets two `Destroy` calls from one `Clear` |
| PoolModel.DisposeEmptiesPool | Runtime/Pool_Constructor.cs:26-30 | dispose succeeds on a valid pool, leaving both counts 0 and the invariant intact; disposing again changes nothing |
| PoolModel.ReleaseAtReleasesIndexed | Runtime/Pool.cs:73-77 | `ReleaseRandom` fails with an index error on an empty registry, and otherwise releases the registry entry at the chosen index |
| PoolModel.GetConserves | Runtime/Pool.cs:85-105 | `Get` loses no instantiated item: the new one is registered, and a reused one moves from the store to the registry |
| PoolModel.ReleaseConserves | Runtime/Pool.cs:91-97 | `Release` loses no instantiated item: the released one is kept in the store, or passed to `Destroy`, or already null |
| PoolModel.ClearConserves | Runtime/Pool.cs:62-65 | `Clear` loses no instantiated item: every idle item it forgets is passed to `Destroy` or already null |
| PoolModel.ReleaseEachConserves | Runtime/Pool.cs:78-83 | releasing any snapshot, up to a failure, loses no instantiated item |
| PoolModel.ReleaseAtConserves | Runtime/Pool.cs:73-77 | `ReleaseRandom` loses no instantiated item |
| PoolModel.DisposeConserves | Runtime/Pool_Constructor.cs:26-30 | dispose loses no instantiated item |
| PoolModel.FrameEndKeepsInvariants | Runtime/Pool.cs:109 | the engine marking objects as null at the end of a frame keeps both the pool invariant and conservation |
| Pooling.ItemStore.Stack | Runtime/Pool_Constructor.cs:18 | a new stack store, with its checks, capacity and maximum size as given and no idle items |
| Pooling.ItemStore.Linked | Runtime/Pool_Constructor.cs:19 | a new linked store with its checks and maximum size as given, no capacity and no idle items |
| Pooling.ItemStore.Get | Runtime/Pool.cs:67 | the pool's new state and item are what the assumed store `Get` gives; an item created for an empty store is fresh |
| Pooling.ItemStore.Release | Runtime/Pool.cs:68-71 | the pool's new state and outcome are what the assumed store `Release` gives |
| Pooling.ItemStore.Clear | Runtime/Pool.cs:62-65 | the loop over the idle items leaves the pool in the state the assumed store `Clear` gives |
| Pooling.Pool.constructor | Runtime/Pool_Constructor.cs:10-22 | the stored settings have the non-null parents overridden; the store fits the pool type; the registry and the store are empty; the invariant holds |
| Pooling.Pool.OutItems | Runtime/Pool.cs:18 | the registry itself, in registration order, as long as `CountActive` |
| Pooling.Pool.AssetName | Runtime/Pool.cs:19 | the name of the prefab the pool clones |
| Pooling.Pool.CountActive | Runtime/Pool.cs:20 | the count is the registry's length, which is the number of distinct checked-out items |
| Pooling.Pool.OnCreatePooledItem | Runtime/Pool.cs:85-90 | a fresh item is instantiated from the prefab under the pool parent and registered |
| Pooling.Pool.OnReturnedToPool | Runtime/Pool.cs:91-97 | it deactivates, reparents to the pool parent and notifies, in that order, then unregisters the item |
| Pooling.Pool.OnTakeFromPool | Runtime/Pool.cs:99-105 | it reparents to the target parent, activates and notifies, in that order, then registers the item if it is absent |
| Pooling.Pool.OnDestroyPoolObject | Runtime/Pool.cs:107-111 | it does nothing for an item the engine reports as null, and otherwise logs one `Object.Destroy` call; the null set is left to the engine |
| Pooling.Pool.FrameEnded | Runtime/Pool.cs:109 | the engine's end of frame only adds the given objects to the null set the destroy hook tests, and the pool stays valid |
| Pooling.Pool.Get | Runtime/Pool.cs:67 | it has the effect of the store `Get`, keeps the invariant, and the item returned is checked out |
| Pooling.Pool.Release | Runtime/Pool.cs:68-71 | it has the effect of the store `Release` and keeps the invariant; after success the item is no longer checked out |
| Pooling.Pool.ReleaseRandom | Runtime/Pool.cs:73-77 | an empty registry gives an index error; otherwise the entry at the chosen index is released |
| Pooling.Pool.ReleaseAll | Runtime/Pool.cs:78-83 | the loop over the snapshot succeeds and empties the registry; every snapshot item gets one return notice, in order; the idle count grows by the snapshot, capped at `maxSize` |
| Pooling.Pool.Clear | Runtime/Pool.cs:62-65 | the store is emptied through the destroy hook and the registry is unchanged |
| Pooling.Pool.DisposeManagedResources | Runtime/Pool_Constructor.cs:26-30 | release-all then clear succeeds, and both counts end at 0 |
| Pooling.NewPool | Runtime/Pool_Constructor.cs:10-22 | construction fails with an out-of-range error exactly for an undeclared pool type; otherwise it gives a fresh, empty, valid pool with the overridden settings |
| Pooling.NewPoolFromSettings | Runtime/Pool.cs:30-40 | it fails with the out-of-range error exactly for an undeclared pool type; otherwise it gives a valid, empty pool whose settings are exactly the ones passed |
| Pooling.NewPoolWithParents | Runtime/Pool.cs:42-54 | it fails with the out-of-range error exactly for an undeclared pool type; otherwise both parents are replaced unconditionally, null ones included, read-only fields are kept and the store is chosen from the settings |
| Construction.PoolBuilder.constructor | Runtime/Pool_Builder.cs:22-26 | a builder with no settings and null parents |
| Construction.Builder | Runtime/Pool_Builder.cs:7-8 | a fresh builder with no settings and null parents |
| Construction.PoolBuilder.WithSettings | Runtime/Pool_Builder.cs:31-35 | it stores the settings, leaves both parents unchanged, and returns the same builder |
| Construction.PoolBuilder.WithPoolParent | Runtime/Pool_Builder.cs:37-41 | it changes only the pool-parent field and returns the same builder |
| Construction.PoolBuilder.WithTargetParent | Runtime/Pool_Builder.cs:43-47 | it changes only the target-parent field and returns the same builder |
| Construction.PoolBuilder.Build | Runtime/Pool_Builder.cs:28-29 | the pool gets exactly the stored settings with each non-null stored parent overridden, or the out-of-range error |
| Construction.BuildWithPoolParentTwice | Runtime/Pool_Builder.cs:37-41 | with two `WithPoolParent` calls only the second value reaches the pool, and a null second value leaves the settings' own pool parent |

## Left out

- Unity engine calls (`Object.Instantiate`, `Object.Destroy`, `SetActive`, `SetParent`, `GetComponent`): these appear only as events in a ghost log, without scene semantics.
- The internals of `ObjectPool<T>` and `LinkedPool<T>` are not part of this model. The store follows the assumed contract described above, and any argument validation those constructors do is not modelled.
- `System.Random`: the index is a parameter. The parameter is constrained the way `Random.Next(n)` constrains its result: below `n`, or 0 when `n` is 0.
- The finalizer `~Pool()` and the `DisposableObject` base class are not modelled. Only the explicit `DisposeManagedResources` path is modelled, including when it runs twice.
- `IPoolItem` has no logic; its two callbacks appear only as `Notified` events.
- The serialization attributes and the inspector surface are not modelled.
- The parameterless constructor (Runtime/Pool.cs:25-28) is not modelled: it leaves the store null, so the result is not a usable pool.
- Runtime/Pool.cs and Runtime/Pool_Constructor.cs declare `Pool<T>` twice: once non-partial with `_outItems`, once `sealed partial` with `_pooledItems`.
  - The model has one class with one registry field.
  - For the three-argument constructor it follows the private one of Runtime/Pool_Constructor.cs, which overrides a parent only when it is non-null; the builder uses that one.
  - The unconditional public one of Runtime/Pool.cs is kept as `NewPoolWithParents`.
- Exceptions the engine would raise for a null item passed to `Release` or `Get` are not modelled. Such an item is treated like any other.
- Frames: the end of a frame is modelled only by `Pool.FrameEnded` (`PoolModel.FrameEnd`), which adds the set of objects the engine now reports as null. Which objects those are is an input: the engine decides it, not the pool.
- `OutItems` returns the registry's value rather than a live `IEnumerable` over the list, so changes to the registry during an enumeration are not modelled.
- Pool.CountInactive: the store's idle count. Only its value after dispose is stated.
- Prewarming: the stack store receives the prewarm size only as its initial capacity. Neither store creates items at construction, so a new pool has no idle items.
- The store has no capacity error: at the maximum size a released item is destroyed, and `Get` always creates an item when none is idle.
- A non-positive `maxSize` is taken as a store that keeps nothing. Every released item is then destroyed.
- Behaviour where a description of the package differs from the code; the model follows the code:
  - the return hook deactivates and reparents the item before notifying it;
  - the pool does not enforce one notification per hand-out: without collection checks, or once a full store has destroyed an item, a second release notifies the item again (see `PoolModel.SecondReleaseAfterDestroyPasses`);
  - a checked-out item is never destroyed only when collection checks are on (`PoolModel.ClearSparesCheckedOut`). Without them, an item released twice is idle twice, a later `Get` hands one copy out, and `Clear` destroys the item while it is still checked out (`PoolModel.ClearDestroysCheckedOutWithoutChecks`);
  - `Release` of an item the pool never handed out is accepted silently. The return hook runs on it, and `List.Remove` of an absent item leaves the registry unchanged (`PoolModel.ReleaseForeignAccepted`).
- `Build` before `WithSettings` is not modelled. The first stage offers only `WithSettings`, so `Build` requires stored settings.
- Settings getters are the datatype's field selectors, which return their fields unchanged by construction. No separate member models them.
