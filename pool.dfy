/** `Pool<T>`, the pool controller (`Runtime/Pool.cs` and
    `Runtime/Pool_Constructor.cs`, two halves of one class), and the store it
    drives. The two files declare the checked-out registry under two names,
    `_outItems` and `_pooledItems`; here it is the one field `outItems`. */
module Pooling {
  import opened Types
  import opened Registry
  import opened Settings
  import opened PoolModel

  /** The reclamation store: Unity's `ObjectPool<T>` for the Stack discipline and
      `LinkedPool<T>` for the LinkedList discipline, one class with the discipline
      fixed at construction. Their source is not part of this model; each method
      here implements the ASSUMED contract stated by the functions of `PoolModel`.
      The four callbacks the store receives are the hook methods of `hooks`. */
  class ItemStore {
    const discipline: Discipline
    const collectionChecks: bool
    const maxSize: int
    /** The `defaultCapacity` argument: the stack store's initial list capacity. */
    const defaultCapacity: Option<int>
    /** The idle items: a stack has its top at the end, a linked list its head at the front. */
    var idle: seq<Item>
    /** The pool whose hook methods this store calls. */
    var hooks: Pool?

    function Config(): StoreConfig {
      StoreConfig(discipline, collectionChecks, maxSize, defaultCapacity)
    }

    /** `new ObjectPool<T>(create, take, return, destroy, collectionChecks, defaultCapacity, maxSize)`. */
    constructor Stack(collectionChecks: bool, defaultCapacity: int, maxSize: int)
      ensures Config() == StoreConfig(StackDiscipline, collectionChecks, maxSize, Some(defaultCapacity))
      ensures idle == [] && hooks == null
    {
      this.discipline := StackDiscipline;
      this.collectionChecks := collectionChecks;
      this.maxSize := maxSize;
      this.defaultCapacity := Some(defaultCapacity);
      idle := [];
      hooks := null;
    }

    /** `new LinkedPool<T>(create, take, return, destroy, collectionChecks, maxSize)`. */
    constructor Linked(collectionChecks: bool, maxSize: int)
      ensures Config() == StoreConfig(LinkedDiscipline, collectionChecks, maxSize, None)
      ensures idle == [] && hooks == null
    {
      this.discipline := LinkedDiscipline;
      this.collectionChecks := collectionChecks;
      this.maxSize := maxSize;
      this.defaultCapacity := None;
      idle := [];
      hooks := null;
    }

    /** Takes the next idle item, or has the create hook make one, then runs the take hook. */
    method Get() returns (item: Item)
      requires hooks != null && hooks.itemPool == this
      modifies this, hooks
      ensures hooks == old(hooks) && hooks.itemPool == this && hooks.settings == old(hooks.settings)
      ensures old(idle) == [] ==> fresh(item)
      ensures StoreGet(old(hooks.State()), hooks.settings, Config(), item) == Taken(hooks.State(), item)
    {
      if |idle| == 0 {
        item := hooks.OnCreatePooledItem();
      } else if discipline == StackDiscipline {
        item := idle[|idle| - 1];
        idle := idle[..|idle| - 1];
      } else {
        item := idle[0];
        idle := idle[1..];
      }
      hooks.OnTakeFromPool(item);
    }

    /** Rejects an item that is already idle when collection checks are on; otherwise
        runs the return hook and keeps the item if there is room, or destroys it. */
    method Release(item: Item) returns (o: Outcome)
      requires hooks != null && hooks.itemPool == this
      modifies this, hooks
      ensures hooks == old(hooks) && hooks.itemPool == this && hooks.settings == old(hooks.settings)
      ensures StoreRelease(old(hooks.State()), hooks.settings, Config(), item) == Step(hooks.State(), o)
    {
      if collectionChecks && item in idle {
        return Fail(DuplicateRelease);
      }
      hooks.OnReturnedToPool(item);
      if |idle| < maxSize {
        if discipline == StackDiscipline {
          idle := idle + [item];
        } else {
          idle := [item] + idle;
        }
      } else {
        hooks.OnDestroyPoolObject(item);
      }
      o := Pass;
    }

    /** Runs the destroy hook on every idle item, then forgets them all. */
    method Clear()
      requires hooks != null && hooks.itemPool == this
      modifies this, hooks
      ensures hooks == old(hooks) && hooks.itemPool == this && hooks.settings == old(hooks.settings)
      ensures hooks.State() == StoreClear(old(hooks.State()))
    {
      var i := 0;
      while i < |idle|
        invariant 0 <= i <= |idle|
        invariant idle == old(idle)
        invariant hooks == old(hooks) && hooks.itemPool == this && hooks.settings == old(hooks.settings)
        invariant DestroyEach(hooks.State(), idle[i..]) == DestroyEach(old(hooks.State()), idle)
      {
        assert idle[i..][1..] == idle[i + 1..];
        hooks.OnDestroyPoolObject(idle[i]);
        i := i + 1;
      }
      idle := [];
    }
  }

  /** The pool controller. */
  class Pool {
    var settings: PoolSettings
    var itemPool: ItemStore
    /** The checked-out registry. */
    var outItems: seq<Item>
    /** The objects Unity's overloaded null test reports as null: those whose
        destruction the engine completed at the end of an earlier frame. The
        pool only reads this set; `FrameEnded` is the engine adding to it. */
    var nullItems: set<Item>
    /** The engine side effects of the hooks, in order. */
    ghost var log: seq<Event>

    ghost function State(): World
      reads this, itemPool
    {
      World(outItems, itemPool.idle, nullItems, log)
    }

    /** The store calls back into this pool, was built from the settings, the pool
        invariant holds, and every item the pool instantiated is accounted for. */
    ghost predicate Valid()
      reads this, itemPool
    {
      && itemPool.hooks == this
      && StoreConfigFor(settings) == Success(itemPool.Config())
      && Inv(itemPool.Config(), State())
      && Conserved(State())
    }

    /** The private constructor: copies the settings, overrides each parent that is
        not null, empties the registry and builds the store the pool type selects.
        An undeclared pool type makes the C# switch throw; `NewPool` models that. */
    constructor (settings: PoolSettings, poolParent: Parent, targetParent: Parent)
      requires StoreConfigFor(settings).Success?
      ensures Valid() && fresh(itemPool)
      ensures this.settings == WithParentOverrides(settings, poolParent, targetParent)
      ensures itemPool.Config() == StoreConfigFor(settings).value
      ensures outItems == [] && itemPool.idle == [] && nullItems == {} && log == []
    {
      var s := settings;
      if !poolParent.NoParent? {
        s := s.SetPoolParent(poolParent);
      }
      if !targetParent.NoParent? {
        s := s.SetTargetParent(targetParent);
      }
      this.settings := s;
      outItems := [];
      nullItems := {};
      log := [];
      if settings.poolType == Stack {
        itemPool := new ItemStore.Stack(settings.collectionChecks, settings.prewarmSize, settings.maxSize);
      } else {
        itemPool := new ItemStore.Linked(settings.collectionChecks, settings.maxSize);
      }
      new;
      itemPool.hooks := this;
    }

    /** `OutItems`: a view of the registry itself, in registration order, as
        long as `CountActive`. */
    function OutItems(): (r: seq<Item>)
      reads this
      ensures r == outItems && |r| == CountActive()
    {
      outItems
    }

    /** `AssetName`: the name of the prefab the pool clones. */
    function AssetName(): (r: string)
      reads this
      ensures r == settings.ownedItemPrefab.name
    {
      settings.ownedItemPrefab.name
    }

    /** `CountActive`: the length of the registry, which is the number of distinct
        checked-out items because the registry never holds one twice. */
    function CountActive(): (n: nat)
      reads this
      ensures NoDups(outItems) ==> n == |Members(outItems)|
    {
      DistinctCount(outItems);
      |outItems|
    }

    /** `CountInactive`: the store's idle count. */
    function CountInactive(): nat
      reads this, itemPool
    {
      |itemPool.idle|
    }

    // ------------------------------------------------------------ the hooks

    /** `OnCreatePooledItem`: instantiate the prefab under the pool parent, register it. */
    method OnCreatePooledItem() returns (item: Item)
      modifies this
      ensures fresh(item)
      ensures settings == old(settings) && itemPool == old(itemPool)
      ensures State() == CreateHook(old(State()), settings, item)
    {
      item := new Item();
      log := log + [Instantiated(item, settings.ownedItemPrefab, settings.poolParent)];
      if item !in outItems {
        outItems := outItems + [item];
      }
    }

    /** `OnReturnedToPool`: deactivate, reparent to the pool parent, notify, unregister. */
    method OnReturnedToPool(item: Item)
      modifies this
      ensures settings == old(settings) && itemPool == old(itemPool)
      ensures State() == ReturnHook(old(State()), settings, item)
    {
      ghost var before := log;
      log := log + [ActiveSet(item, false)];
      log := log + [ParentSet(item, settings.poolParent)];
      log := log + [Notified(item, ReturnedToPool)];
      assert log == before + ReturnEvents(item, settings.poolParent);
      if item in outItems {
        outItems := Remove(outItems, item);
      }
      assert outItems == Remove(old(outItems), item);
    }

    /** `OnTakeFromPool`: reparent to the target parent, activate, notify, register. */
    method OnTakeFromPool(item: Item)
      modifies this
      ensures settings == old(settings) && itemPool == old(itemPool)
      ensures State() == TakeHook(old(State()), settings, item)
    {
      ghost var before := log;
      log := log + [ParentSet(item, settings.targetParent)];
      log := log + [ActiveSet(item, true)];
      log := log + [Notified(item, TakenFromPool)];
      assert log == before + TakeEvents(item, settings.targetParent);
      if item !in outItems {
        outItems := outItems + [item];
      }
    }

    /** `OnDestroyPoolObject`: nothing for an item the engine reports as null;
        otherwise `Object.Destroy`, whose effect the engine defers to the end of
        the frame, so the null set is not changed here. */
    method OnDestroyPoolObject(item: Item)
      modifies this
      ensures settings == old(settings) && itemPool == old(itemPool)
      ensures State() == DestroyHook(old(State()), item)
    {
      if item in nullItems {
        return;
      }
      log := log + [Destroyed(item)];
    }

    // ------------------------------------------------------- the public surface

    /** `Get`. */
    method Get() returns (item: Item)
      requires Valid()
      modifies this, itemPool
      ensures Valid() && itemPool == old(itemPool) && settings == old(settings)
      ensures old(itemPool.idle) == [] ==> fresh(item)
      ensures StoreGet(old(State()), settings, itemPool.Config(), item) == Taken(State(), item)
      ensures item in outItems
    {
      item := itemPool.Get();
      GetKeepsInv(old(State()), settings, itemPool.Config(), item);
      GetConserves(old(State()), settings, itemPool.Config(), item);
    }

    /** `Release`: throws when collection checks find the item already idle. */
    method Release(item: Item) returns (o: Outcome)
      requires Valid()
      modifies this, itemPool
      ensures Valid() && itemPool == old(itemPool) && settings == old(settings)
      ensures StoreRelease(old(State()), settings, itemPool.Config(), item) == Step(State(), o)
      ensures o.Pass? ==> item !in outItems
    {
      o := itemPool.Release(item);
      ReleaseReturnsOrDestroys(old(State()), settings, itemPool.Config(), item);
      ReleaseConserves(old(State()), settings, itemPool.Config(), item);
    }

    /** `ReleaseRandom`, with the draw of `Random.Next(CountActive)` passed in:
        `index` is 0 when nothing is checked out, and below `CountActive` otherwise.
        Indexing the empty registry throws. */
    method ReleaseRandom(index: nat) returns (o: Outcome)
      requires Valid()
      requires index == 0 || index < |outItems|
      modifies this, itemPool
      ensures Valid() && itemPool == old(itemPool) && settings == old(settings)
      ensures ReleaseAt(old(State()), settings, itemPool.Config(), index) == Step(State(), o)
      ensures old(outItems) == [] ==> o == Fail(IndexOutOfRange)
      ensures old(outItems) != [] ==>
                o == Pass && old(outItems)[index] !in outItems && |outItems| == |old(outItems)| - 1
    {
      if |outItems| == 0 {
        return Fail(IndexOutOfRange);
      }
      o := itemPool.Release(outItems[index]);
      ReleaseAtReleasesIndexed(old(State()), settings, itemPool.Config(), index);
      ReleaseAtConserves(old(State()), settings, itemPool.Config(), index);
    }

    /** `ReleaseAll`: releases each item of a snapshot of the registry taken first. */
    method ReleaseAll() returns (o: Outcome)
      requires Valid()
      modifies this, itemPool
      ensures Valid() && itemPool == old(itemPool) && settings == old(settings)
      ensures PoolModel.ReleaseAll(old(State()), settings, itemPool.Config()) == Step(State(), o)
      ensures o == Pass && outItems == []
      ensures |itemPool.idle| == Min(Cap(itemPool.maxSize), |old(itemPool.idle)| + |old(outItems)|)
      ensures old(log) <= log && ReturnNotices(log[|old(log)|..]) == old(outItems)
    {
      var items := outItems;
      ghost var c := itemPool.Config();
      ReleaseEachOfRegistry(State(), settings, c, items);
      ReleaseEachNotifiesOnce(State(), settings, c, items);
      ReleaseEachConserves(State(), settings, c, items);
      o := Pass;
      var i := 0;
      while i < |items| && o.Pass?
        invariant 0 <= i <= |items|
        invariant itemPool == old(itemPool) && settings == old(settings) && itemPool.hooks == this
        invariant o.Pass? ==>
                    ReleaseEach(State(), settings, c, items[i..]) ==
                    ReleaseEach(old(State()), settings, c, items)
        invariant o.Fail? ==> Step(State(), o) == ReleaseEach(old(State()), settings, c, items)
        decreases |items| - i
      {
        assert items[i..][1..] == items[i + 1..];
        o := itemPool.Release(items[i]);
        i := i + 1;
      }
    }

    /** `Clear`: clears the store; the registry is untouched. */
    method Clear()
      requires Valid()
      modifies this, itemPool
      ensures Valid() && itemPool == old(itemPool) && settings == old(settings)
      ensures State() == StoreClear(old(State()))
      ensures outItems == old(outItems) && itemPool.idle == []
    {
      itemPool.Clear();
      ClearDestroysIdleOnly(old(State()));
      ClearConserves(old(State()));
    }

    /** `DisposeManagedResources`: `ReleaseAll` and then `Clear`. */
    method DisposeManagedResources() returns (o: Outcome)
      requires Valid()
      modifies this, itemPool
      ensures Valid() && itemPool == old(itemPool) && settings == old(settings)
      ensures Dispose(old(State()), settings, itemPool.Config()) == Step(State(), o)
      ensures o == Pass && CountActive() == 0 && CountInactive() == 0
    {
      o := ReleaseAll();
      Clear();
    }

    /** Not pool code: the end of a frame, at which the engine completes the
        `Object.Destroy` calls of the frame, by this pool or by other code, and
        from then on reports the objects `gone` as null. */
    method FrameEnded(gone: set<Item>)
      requires Valid()
      modifies this
      ensures Valid() && itemPool == old(itemPool) && settings == old(settings)
      ensures State() == FrameEnd(old(State()), gone)
    {
      nullItems := nullItems + gone;
      FrameEndKeepsInvariants(itemPool.Config(), old(State()), gone);
    }
  }

  /** `new Pool<T>(settings, poolParent, targetParent)`, including the
      `ArgumentOutOfRangeException` the constructor throws for an undeclared pool type. */
  method NewPool(settings: PoolSettings, poolParent: Parent, targetParent: Parent) returns (r: Result<Pool>)
    ensures r.Failure? <==> settings.poolType.Undeclared?
    ensures r.Failure? ==> r.error == PoolTypeOutOfRange
    ensures r.Success? ==>
              && fresh(r.value) && fresh(r.value.itemPool) && r.value.Valid()
              && r.value.settings == WithParentOverrides(settings, poolParent, targetParent)
              && r.value.itemPool.Config() == StoreConfigFor(settings).value
              && r.value.outItems == [] && r.value.itemPool.idle == []
  {
    if StoreConfigFor(settings).Failure? {
      return Failure(StoreConfigFor(settings).error);
    }
    var pool := new Pool(settings, poolParent, targetParent);
    r := Success(pool);
  }

  /** `new Pool<T>(settings)`: the same construction with both parents null, so
      the settings are kept exactly as given. */
  method NewPoolFromSettings(settings: PoolSettings) returns (r: Result<Pool>)
    ensures r.Failure? <==> settings.poolType.Undeclared?
    ensures r.Failure? ==> r.error == PoolTypeOutOfRange
    ensures r.Success? ==>
              && fresh(r.value) && r.value.Valid() && r.value.settings == settings
              && r.value.outItems == [] && r.value.itemPool.idle == []
  {
    r := NewPool(settings, NoParent, NoParent);
  }

  /** The public three-argument constructor of `Runtime/Pool.cs`, which calls both
      setters unconditionally: a null parent replaces the stored one too. The
      store is chosen from the settings as passed. */
  method NewPoolWithParents(settings: PoolSettings, poolParent: Parent, targetParent: Parent) returns (r: Result<Pool>)
    ensures r.Failure? <==> settings.poolType.Undeclared?
    ensures r.Failure? ==> r.error == PoolTypeOutOfRange
    ensures r.Success? ==>
              && fresh(r.value) && r.value.Valid()
              && r.value.settings.poolParent == poolParent
              && r.value.settings.targetParent == targetParent
              && ReadOnlyPart(r.value.settings) == ReadOnlyPart(settings)
              && r.value.itemPool.Config() == StoreConfigFor(settings).value
              && r.value.outItems == [] && r.value.itemPool.idle == []
  {
    var s := settings.SetPoolParent(poolParent).SetTargetParent(targetParent);
    r := NewPool(s, NoParent, NoParent);
  }
}
