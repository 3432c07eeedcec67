/** The specification of one pool as a value: the checked-out registry, the idle
    store, the objects the engine reports as null and the log of hook side
    effects, and each hook and each store operation as a function on it.

    The store is Unity's `ObjectPool<T>` (Stack) or `LinkedPool<T>` (LinkedList),
    whose source is not part of this model. Its behaviour here is an ASSUMED
    contract: `Get` takes an idle item, or creates one when there is none, and then
    runs the take hook; `Release` first rejects an item that is already idle when
    collection checks are on, then runs the return hook, then keeps the item only
    while fewer than `maxSize` items are idle and otherwise destroys it; `Clear`
    runs the destroy hook on every idle item and forgets them all. */
module PoolModel {
  import opened Types
  import opened Registry
  import opened Settings

  // ---------------------------------------------------------------- the store

  datatype Discipline = StackDiscipline | LinkedDiscipline

  /** The arguments the pool constructor passes to the store it builds. */
  datatype StoreConfig = StoreConfig(
    discipline: Discipline,
    collectionChecks: bool,
    maxSize: int,
    defaultCapacity: Option<int>)

  /** The constructor's `switch` on the pool type. */
  function StoreConfigFor(s: PoolSettings): (r: Result<StoreConfig>)
    ensures r.Failure? <==> s.poolType.Undeclared?
    ensures r.Failure? ==> r.error == PoolTypeOutOfRange
    ensures r.Success? ==> r.value.collectionChecks == s.collectionChecks && r.value.maxSize == s.maxSize
    ensures r.Success? ==> (r.value.discipline == StackDiscipline <==> s.poolType == Stack)
    ensures r.Success? ==> r.value.defaultCapacity == (if s.poolType == Stack then Some(s.prewarmSize) else None)
  {
    match s.poolType
    case Stack => Success(StoreConfig(StackDiscipline, s.collectionChecks, s.maxSize, Some(s.prewarmSize)))
    case LinkedList => Success(StoreConfig(LinkedDiscipline, s.collectionChecks, s.maxSize, None))
    case Undeclared(_) => Failure(PoolTypeOutOfRange)
  }

  /** The idle item `Get` takes next. A stack keeps its top at the end of the
      sequence, a linked list keeps its head at the front. */
  function Top(d: Discipline, idle: seq<Item>): (x: Item)
    requires idle != []
    ensures x in idle
  {
    if d == StackDiscipline then idle[|idle| - 1] else idle[0]
  }

  /** The idle items left after `Get` takes the next one. */
  function Pop(d: Discipline, idle: seq<Item>): (r: seq<Item>)
    requires idle != []
    ensures multiset(idle) == multiset(r) + multiset{Top(d, idle)}
    ensures NoDups(idle) ==> NoDups(r) && Top(d, idle) !in r
  {
    if d == StackDiscipline then
      assert idle == idle[..|idle| - 1] + [idle[|idle| - 1]];
      idle[..|idle| - 1]
    else
      assert idle == [idle[0]] + idle[1..];
      idle[1..]
  }

  /** The idle items after `Release` keeps an item. */
  function Push(d: Discipline, idle: seq<Item>, x: Item): (r: seq<Item>)
    ensures multiset(r) == multiset(idle) + multiset{x}
    ensures NoDups(idle) && x !in idle ==> NoDups(r)
  {
    if d == StackDiscipline then idle + [x] else [x] + idle
  }

  /** Both disciplines give back the item released last: `Get` right after a
      `Release` that kept the item returns that item and restores the idle items. */
  lemma PushThenTop(d: Discipline, idle: seq<Item>, x: Item)
    ensures Top(d, Push(d, idle, x)) == x && Pop(d, Push(d, idle, x)) == idle
  {
  }

  /** The number of idle items the store can hold. */
  function Cap(maxSize: int): nat {
    if maxSize < 0 then 0 else maxSize
  }

  function Min(a: int, b: int): int {
    if a <= b then a else b
  }

  // ---------------------------------------------------------------- the state

  /** Everything a pool operation reads or changes. `nulled` holds the objects
      Unity's overloaded null test reports as null: those whose destruction the
      engine completed at the end of an earlier frame. `Object.Destroy` only takes
      effect at the end of the current frame, so no pool operation changes this
      set; the destroy hook only reads it. */
  datatype World = World(
    registry: seq<Item>,
    idle: seq<Item>,
    nulled: set<Item>,
    log: seq<Event>)

  /** What the store's `Get` gives: the new state and the item handed out. */
  datatype Taken = Taken(world: World, item: Item)

  /** What an operation that may throw gives: the new state and the outcome. */
  datatype Step = Step(world: World, outcome: Outcome)

  /** No entry of `a` occurs in `b`. */
  predicate Disjoint(a: seq<Item>, b: seq<Item>) {
    forall i, j :: 0 <= i < |a| && 0 <= j < |b| ==> a[i] != b[j]
  }

  /** What every pool operation preserves: the registry has no duplicates, the
      store holds no more than its capacity, and, when collection checks are on,
      no item is idle twice or both idle and checked out. */
  predicate Inv(c: StoreConfig, w: World) {
    && NoDups(w.registry)
    && |w.idle| <= Cap(c.maxSize)
    && (c.collectionChecks ==> NoDups(w.idle) && Disjoint(w.registry, w.idle))
  }

  /** `x` is checked out, idle, reported null, or has had `Object.Destroy` called on it. */
  predicate Accounted(w: World, x: Item) {
    x in w.registry || x in w.idle || x in w.nulled || Destroyed(x) in w.log
  }

  /** No item the pool instantiated goes missing: every one is checked out, idle
      or destroyed. Every pool operation preserves this too. */
  predicate Conserved(w: World) {
    forall i :: 0 <= i < |w.log| && w.log[i].Instantiated? ==> Accounted(w, w.log[i].item)
  }

  // ---------------------------------------------------------------- the hooks

  /** Side effects of the take hook, in order: reparent to the target parent,
      activate, notify the item. */
  function TakeEvents(item: Item, targetParent: Parent): seq<Event> {
    [ParentSet(item, targetParent), ActiveSet(item, true), Notified(item, TakenFromPool)]
  }

  /** Side effects of the return hook, in order: deactivate, reparent to the pool
      parent, notify the item. */
  function ReturnEvents(item: Item, poolParent: Parent): seq<Event> {
    [ActiveSet(item, false), ParentSet(item, poolParent), Notified(item, ReturnedToPool)]
  }

  /** `OnCreatePooledItem`: instantiate the prefab under the pool parent and
      register the new item. */
  function CreateHook(w: World, s: PoolSettings, item: Item): World {
    w.(registry := AddIfAbsent(w.registry, item),
       log := w.log + [Instantiated(item, s.ownedItemPrefab, s.poolParent)])
  }

  /** `OnTakeFromPool`. */
  function TakeHook(w: World, s: PoolSettings, item: Item): World {
    w.(registry := AddIfAbsent(w.registry, item), log := w.log + TakeEvents(item, s.targetParent))
  }

  /** `OnReturnedToPool`. */
  function ReturnHook(w: World, s: PoolSettings, item: Item): World {
    w.(registry := Remove(w.registry, item), log := w.log + ReturnEvents(item, s.poolParent))
  }

  /** `OnDestroyPoolObject`: calls `Object.Destroy` on every item the engine does
      not report as null, even one it was already called on earlier in the frame;
      a null item is left alone. The registry, the store and the null set are
      never touched. */
  function DestroyHook(w: World, item: Item): (r: World)
    ensures r.registry == w.registry && r.idle == w.idle && r.nulled == w.nulled
    ensures item in w.nulled ==> r == w
    ensures item !in w.nulled ==> r.log == w.log + [Destroyed(item)]
  {
    if item in w.nulled then w else w.(log := w.log + [Destroyed(item)])
  }

  // ------------------------------------------------------- the store operations

  /** The store's `Get`; `created` is the object the create hook instantiates
      when there is no idle item. */
  function StoreGet(w: World, s: PoolSettings, c: StoreConfig, created: Item): (r: Taken) {
    if w.idle == [] then
      Taken(TakeHook(CreateHook(w, s, created), s, created), created)
    else
      var x := Top(c.discipline, w.idle);
      Taken(TakeHook(w.(idle := Pop(c.discipline, w.idle)), s, x), x)
  }

  /** The store's `Release`. */
  function StoreRelease(w: World, s: PoolSettings, c: StoreConfig, item: Item): (r: Step) {
    if c.collectionChecks && item in w.idle then
      Step(w, Fail(DuplicateRelease))
    else
      var w1 := ReturnHook(w, s, item);
      if |w1.idle| < c.maxSize then Step(w1.(idle := Push(c.discipline, w1.idle, item)), Pass)
      else Step(DestroyHook(w1, item), Pass)
  }

  /** The destroy hook run on each of `items`, first to last. */
  function DestroyEach(w: World, items: seq<Item>): World
    decreases |items|
  {
    if items == [] then w else DestroyEach(DestroyHook(w, items[0]), items[1..])
  }

  /** The store's `Clear`. */
  function StoreClear(w: World): World {
    DestroyEach(w, w.idle).(idle := [])
  }

  /** The entries of `items` that are not in `nulled`, in order and with repeats. */
  function Live(items: seq<Item>, nulled: set<Item>): seq<Item>
    decreases |items|
  {
    if items == [] then []
    else if items[0] in nulled then Live(items[1..], nulled)
    else [items[0]] + Live(items[1..], nulled)
  }

  /** One `Object.Destroy` call for each entry of `items`, in order. */
  function DestroyCalls(items: seq<Item>): seq<Event>
    decreases |items|
  {
    if items == [] then [] else [Destroyed(items[0])] + DestroyCalls(items[1..])
  }

  // --------------------------------------------------- the controller operations

  /** `foreach (var item in items) Release(item)`: stops at the first release that throws. */
  function ReleaseEach(w: World, s: PoolSettings, c: StoreConfig, items: seq<Item>): (r: Step)
    decreases |items|
  {
    if items == [] then Step(w, Pass)
    else
      var first := StoreRelease(w, s, c, items[0]);
      if first.outcome.Fail? then first else ReleaseEach(first.world, s, c, items[1..])
  }

  /** `ReleaseAll`: releases a snapshot of the registry taken before the first release. */
  function ReleaseAll(w: World, s: PoolSettings, c: StoreConfig): (r: Step) {
    ReleaseEach(w, s, c, w.registry)
  }

  /** `ReleaseRandom` once the random index is drawn: indexing an empty registry throws. */
  function ReleaseAt(w: World, s: PoolSettings, c: StoreConfig, index: nat): (r: Step) {
    if index < |w.registry| then StoreRelease(w, s, c, w.registry[index])
    else Step(w, Fail(IndexOutOfRange))
  }

  /** `DisposeManagedResources`: `ReleaseAll` and then `Clear`. */
  function Dispose(w: World, s: PoolSettings, c: StoreConfig): (r: Step) {
    var released := ReleaseAll(w, s, c);
    if released.outcome.Fail? then released else Step(StoreClear(released.world), Pass)
  }

  /** With collection checks, `Clear` never destroys a checked-out item: every
      `Destroy` it appends is for an idle item, and no idle item is checked out. */
  lemma ClearSparesCheckedOut(c: StoreConfig, w: World)
    requires Inv(c, w) && c.collectionChecks
    ensures |w.log| <= |StoreClear(w).log|
    ensures var added := StoreClear(w).log[|w.log|..];
      forall i :: 0 <= i < |added| ==> added[i].Destroyed? && added[i].item !in StoreClear(w).registry
  {
    ClearDestroysIdleOnly(w);
    var live := Live(w.idle, w.nulled);
    var added := StoreClear(w).log[|w.log|..];
    assert added == DestroyCalls(live);
    DestroyCallsIndex(live);
    LiveWithin(w.idle, w.nulled);
    forall i | 0 <= i < |added| ensures added[i].Destroyed? && added[i].item !in w.registry {
      assert added[i] == Destroyed(live[i]);
      DisjointNotIn(w.registry, w.idle, live[i]);
    }
  }

  /** Every live entry is one of the entries. */
  lemma {:induction false} LiveWithin(items: seq<Item>, nulled: set<Item>)
    ensures forall i :: 0 <= i < |Live(items, nulled)| ==> Live(items, nulled)[i] in items
    decreases |items|
  {
    if items != [] {
      LiveWithin(items[1..], nulled);
      assert forall y :: y in items[1..] ==> y in items;
    }
  }

  /** An item of the second of two disjoint sequences is not in the first. */
  lemma DisjointNotIn(a: seq<Item>, b: seq<Item>, y: Item)
    requires Disjoint(a, b) && y in b
    ensures y !in a
  {
    if y in a {
      var k, j := IndexOf(a, y), IndexOf(b, y);
    }
  }

  /** Without collection checks the pool can destroy a checked-out item: after
      `Get`, two releases of the same item, and `Get`, the store holds the item
      once more while it is checked out, and `Clear` destroys it. */
  lemma ClearDestroysCheckedOutWithoutChecks(s: PoolSettings, x: Item)
    ensures var c := StoreConfig(StackDiscipline, false, 5, Some(0));
      var w1 := StoreGet(World([], [], {}, []), s, c, x).world;
      var w2 := StoreRelease(w1, s, c, x).world;
      var w3 := StoreRelease(w2, s, c, x).world;
      var w4 := StoreGet(w3, s, c, x).world;
      && w4.registry == [x] && w4.idle == [x]
      && StoreClear(w4).registry == [x]
      && StoreClear(w4).log == w4.log + [Destroyed(x)]
  {
    var c := StoreConfig(StackDiscipline, false, 5, Some(0));
    var w1 := StoreGet(World([], [], {}, []), s, c, x).world;
    GetCreatesInto(World([], [], {}, []), s, c, x);
    var w2 := StoreRelease(w1, s, c, x).world;
    ReleaseAbsentPushes(w1, s, c, x);
    var w3 := StoreRelease(w2, s, c, x).world;
    ReleaseAbsentPushes(w2, s, c, x);
    var w4 := StoreGet(w3, s, c, x).world;
    GetTakesTop(w3, s, c, x);
    assert w3.idle[..1] == [x];
    ClearOfSingle(w4, x);
  }

  /** `Get` on an empty store and an empty registry registers the created item only. */
  lemma GetCreatesInto(w: World, s: PoolSettings, c: StoreConfig, x: Item)
    requires w.registry == [] && w.idle == []
    ensures var w' := StoreGet(w, s, c, x).world;
      w'.registry == [x] && w'.idle == [] && w'.nulled == w.nulled
  {
    assert AddIfAbsent([], x) == [x];
    assert AddIfAbsent([x], x) == [x];
  }

  /** `Get` from a stack store with an empty registry takes the top and registers it only. */
  lemma GetTakesTop(w: World, s: PoolSettings, c: StoreConfig, x: Item)
    requires w.registry == [] && w.idle != [] && c.discipline == StackDiscipline
    ensures var w' := StoreGet(w, s, c, x).world;
      && w'.registry == [w.idle[|w.idle| - 1]]
      && w'.idle == w.idle[..|w.idle| - 1] && w'.nulled == w.nulled
  {
    assert AddIfAbsent([], w.idle[|w.idle| - 1]) == [w.idle[|w.idle| - 1]];
  }

  /** `Clear` of a single live idle item destroys it and keeps the registry. */
  lemma ClearOfSingle(w: World, x: Item)
    requires w.idle == [x] && x !in w.nulled
    ensures StoreClear(w).registry == w.registry && StoreClear(w).log == w.log + [Destroyed(x)]
  {
    ClearDestroysIdleOnly(w);
    assert Live([x], w.nulled) == [x];
  }

  /** One step of the counterexample: a release without checks into a stack
      store below its maximum leaves the registry empty and pushes the item. */
  lemma ReleaseAbsentPushes(w: World, s: PoolSettings, c: StoreConfig, x: Item)
    requires !c.collectionChecks && c.discipline == StackDiscipline && |w.idle| < c.maxSize
    requires w.registry == [x] || w.registry == []
    ensures StoreRelease(w, s, c, x).world.registry == []
    ensures StoreRelease(w, s, c, x).world.idle == w.idle + [x]
    ensures StoreRelease(w, s, c, x).world.nulled == w.nulled
  {
    assert Remove([x], x) == [];
  }

  /** The store accepts the release of an item the pool never handed out: the
      return hook runs, and the registry, which does not hold it, is unchanged. */
  lemma ReleaseForeignAccepted(w: World, s: PoolSettings, c: StoreConfig, item: Item)
    requires item !in w.registry && item !in w.idle
    ensures var Step(w', o) := StoreRelease(w, s, c, item);
      && o == Pass && w'.registry == w.registry
      && w.log + ReturnEvents(item, s.poolParent) <= w'.log
  {
    var tail := ReleaseLog(w, s, c, item);
    AppendAssoc(w.log, ReturnEvents(item, s.poolParent), tail);
  }

  /** The end of a frame: from now on the engine reports the objects `gone` as null. */
  function FrameEnd(w: World, gone: set<Item>): World {
    w.(nulled := w.nulled + gone)
  }

  /** The items that received `OnReturnToPool`, in the order of the log. */
  function ReturnNotices(log: seq<Event>): seq<Item>
    decreases |log|
  {
    if log == [] then []
    else
      (if log[0].Notified? && log[0].notice == ReturnedToPool then [log[0].item] else [])
      + ReturnNotices(log[1..])
  }

  // ---------------------------------------------------------------- properties

  lemma {:induction false} ReturnNoticesAppend(a: seq<Event>, b: seq<Event>)
    ensures ReturnNotices(a + b) == ReturnNotices(a) + ReturnNotices(b)
    decreases |a|
  {
    if a != [] {
      ReturnNoticesAppend(a[1..], b);
      assert (a + b)[0] == a[0];
      assert (a + b)[1..] == a[1..] + b;
    } else {
      assert a + b == b;
    }
  }

  /** `Get` keeps the invariant. */
  lemma GetKeepsInv(w: World, s: PoolSettings, c: StoreConfig, created: Item)
    requires Inv(c, w)
    ensures Inv(c, StoreGet(w, s, c, created).world)
  {
    if w.idle != [] {
      var x := Top(c.discipline, w.idle);
      var rest := Pop(c.discipline, w.idle);
      var reg := AddIfAbsent(w.registry, x);
      if c.collectionChecks {
        forall i, j | 0 <= i < |reg| && 0 <= j < |rest| ensures reg[i] != rest[j] {
          assert rest[j] in multiset(w.idle);
          if i < |w.registry| {
            var k :| 0 <= k < |w.idle| && w.idle[k] == rest[j];
          }
        }
      }
    }
  }

  /** What `Get` does: the item comes from the idle store by its discipline, or is
      the newly created one; the take hook's side effects follow the creation's in
      a fixed order; and the item ends up registered exactly once. */
  lemma GetTakesAndRegisters(w: World, s: PoolSettings, c: StoreConfig, created: Item)
    requires Inv(c, w)
    requires w.idle == [] ==> created !in w.registry
    ensures var Taken(w', x) := StoreGet(w, s, c, created);
      && (w.idle == [] ==>
            x == created && w'.idle == [] &&
            w'.log == w.log + [Instantiated(x, s.ownedItemPrefab, s.poolParent)] + TakeEvents(x, s.targetParent))
      && (w.idle != [] ==>
            x == Top(c.discipline, w.idle) && w'.idle == Pop(c.discipline, w.idle) &&
            w'.log == w.log + TakeEvents(x, s.targetParent))
      && multiset(w'.registry)[x] == 1
      && (w.idle == [] || c.collectionChecks ==> w'.registry == w.registry + [x])
      && w'.nulled == w.nulled
  {
    var Taken(w', x) := StoreGet(w, s, c, created);
    GetKeepsInv(w, s, c, created);
    NoDupsCount(w'.registry, x);
  }

  /** In a duplicate-free list a member occurs exactly once. */
  lemma {:induction false} NoDupsCount(s: seq<Item>, x: Item)
    requires NoDups(s) && x in s
    ensures multiset(s)[x] == 1
  {
    if s[0] == x {
      assert s == [x] + s[1..];
      assert x !in s[1..];
    } else {
      assert s == [s[0]] + s[1..];
      NoDupsCount(s[1..], x);
    }
  }

  /** An entry of `a` does not occur in a list disjoint from `a`. */
  lemma DisjointMember(a: seq<Item>, b: seq<Item>, i: nat)
    requires Disjoint(a, b) && i < |a|
    ensures a[i] !in b
  {
  }

  /** `Release` keeps the invariant. */
  lemma ReleaseKeepsInv(w: World, s: PoolSettings, c: StoreConfig, item: Item)
    requires Inv(c, w)
    ensures Inv(c, StoreRelease(w, s, c, item).world)
  {
    var Step(w', o) := StoreRelease(w, s, c, item);
    if o.Pass? {
      RemoveNoDups(w.registry, item);
      if c.collectionChecks {
        assert multiset(w'.idle) <= multiset(w.idle) + multiset{item};
        DisjointKept(w.registry, w.idle, w'.registry, w'.idle, item);
      }
    }
  }

  /** Shrinking the first list, and growing the second by nothing but an item that
      has left the first, keeps the two disjoint. */
  lemma DisjointKept(a: seq<Item>, b: seq<Item>, a': seq<Item>, b': seq<Item>, x: Item)
    requires Disjoint(a, b) && x !in a'
    requires multiset(a') <= multiset(a) && multiset(b') <= multiset(b) + multiset{x}
    ensures Disjoint(a', b')
  {
    forall i, j | 0 <= i < |a'| && 0 <= j < |b'| ensures a'[i] != b'[j] {
      var y := a'[i];
      assert y in multiset(a');
      assert y in a;
      DisjointMember(a, b, IndexOf(a, y));
      assert y !in multiset(b) + multiset{x};
      assert b'[j] in multiset(b');
    }
  }

  /** What `Release` does: with collection checks on it throws, changing nothing,
      exactly when the item is already idle; otherwise the return hook's side
      effects happen in a fixed order, the item leaves the registry and nothing
      else does, and the store keeps the item while it has room or calls the
      destroy hook on it. */
  lemma ReleaseReturnsOrDestroys(w: World, s: PoolSettings, c: StoreConfig, item: Item)
    requires Inv(c, w)
    ensures var Step(w', o) := StoreRelease(w, s, c, item);
      && (o.Fail? <==> c.collectionChecks && item in w.idle)
      && (o.Fail? ==> o == Fail(DuplicateRelease) && w' == w)
      && (o.Pass? ==>
            && item !in w'.registry
            && Members(w'.registry) == Members(w.registry) - {item}
            && w'.nulled == w.nulled
            && (|w.idle| < c.maxSize ==>
                  w'.idle == Push(c.discipline, w.idle, item) &&
                  w'.log == w.log + ReturnEvents(item, s.poolParent))
            && (|w.idle| >= c.maxSize ==>
                  w'.idle == w.idle &&
                  w'.log == w.log + ReturnEvents(item, s.poolParent) +
                            (if item in w.nulled then [] else [Destroyed(item)])))
      && Inv(c, w')
  {
    ReleaseKeepsInv(w, s, c, item);
    RemoveNoDups(w.registry, item);
    RemoveMembers(w.registry, item);
  }

  /** With collection checks on, releasing the same item twice in a row throws on
      the second call whenever the first call kept it. */
  lemma DoubleReleaseRejected(w: World, s: PoolSettings, c: StoreConfig, item: Item)
    requires Inv(c, w) && c.collectionChecks
    requires StoreRelease(w, s, c, item).outcome.Pass? && |w.idle| < c.maxSize
    ensures var w1 := StoreRelease(w, s, c, item).world;
      StoreRelease(w1, s, c, item) == Step(w1, Fail(DuplicateRelease))
  {
    ReleaseReturnsOrDestroys(w, s, c, item);
    assert item in multiset(Push(c.discipline, w.idle, item));
  }

  /** A release that the store answers with the destroy hook leaves the item out
      of the store, so the collection check has nothing to find: releasing the
      same item again in the same frame is not rejected, the item receives a
      second return notification in a row, and `Object.Destroy` is called on it
      a second time. */
  lemma SecondReleaseAfterDestroyPasses(w: World, s: PoolSettings, c: StoreConfig, item: Item)
    requires Inv(c, w) && |w.idle| >= c.maxSize && item !in w.idle
    ensures var w1 := StoreRelease(w, s, c, item).world;
      var destroy: seq<Event> := if item in w.nulled then [] else [Destroyed(item)];
      && StoreRelease(w, s, c, item).outcome == Pass
      && w1.log == w.log + ReturnEvents(item, s.poolParent) + destroy
      && StoreRelease(w1, s, c, item).outcome == Pass
      && StoreRelease(w1, s, c, item).world.log == w1.log + ReturnEvents(item, s.poolParent) + destroy
  {
    ReleaseReturnsOrDestroys(w, s, c, item);
  }

  /** `Get` right after a `Release` that kept the item hands the same item out again. */
  lemma ReleaseThenGetReturnsSameItem(w: World, s: PoolSettings, c: StoreConfig, item: Item, created: Item)
    requires Inv(c, w)
    requires StoreRelease(w, s, c, item).outcome.Pass? && |w.idle| < c.maxSize
    ensures StoreGet(StoreRelease(w, s, c, item).world, s, c, created).item == item
  {
    ReleaseReturnsOrDestroys(w, s, c, item);
    PushThenTop(c.discipline, w.idle, item);
  }

  /** `ReleaseAll` on a pool that keeps the invariant never throws, empties the
      registry, and leaves as many idle items as the store has room for. */
  lemma {:induction false} ReleaseEachOfRegistry(w: World, s: PoolSettings, c: StoreConfig, items: seq<Item>)
    requires Inv(c, w) && w.registry == items
    ensures ReleaseEach(w, s, c, items).outcome == Pass
    ensures ReleaseEach(w, s, c, items).world.registry == []
    ensures Inv(c, ReleaseEach(w, s, c, items).world)
    ensures |ReleaseEach(w, s, c, items).world.idle| == Min(Cap(c.maxSize), |w.idle| + |items|)
    decreases |items|
  {
    if items != [] {
      var x := items[0];
      if c.collectionChecks { DisjointMember(w.registry, w.idle, 0); }
      ReleaseReturnsOrDestroys(w, s, c, x);
      RemoveFirst(items);
      var w1 := StoreRelease(w, s, c, x).world;
      assert w1.registry == items[1..];
      ReleaseEachOfRegistry(w1, s, c, items[1..]);
    }
  }

  /** A release that does not throw adds exactly one return notification, for
      the released item, and only appends to the log. */
  lemma ReleaseNotifiesOnce(w: World, s: PoolSettings, c: StoreConfig, x: Item)
    requires StoreRelease(w, s, c, x).outcome == Pass
    ensures w.log <= StoreRelease(w, s, c, x).world.log
    ensures ReturnNotices(StoreRelease(w, s, c, x).world.log[|w.log|..]) == [x]
  {
    var tail := ReleaseLog(w, s, c, x);
    ReleaseEventsNotice(x, s.poolParent, tail);
  }

  /** A release that does not throw appends the return hook's events and, when
      the store is full and the item is not null, its destruction. */
  lemma ReleaseLog(w: World, s: PoolSettings, c: StoreConfig, x: Item) returns (tail: seq<Event>)
    requires !(c.collectionChecks && x in w.idle)
    ensures tail == if |w.idle| < c.maxSize || x in w.nulled then [] else [Destroyed(x)]
    ensures w.log <= StoreRelease(w, s, c, x).world.log
    ensures StoreRelease(w, s, c, x).world.log[|w.log|..] == ReturnEvents(x, s.poolParent) + tail
    ensures StoreRelease(w, s, c, x).world.log == w.log + (ReturnEvents(x, s.poolParent) + tail)
  {
    var e := ReturnEvents(x, s.poolParent);
    var w1 := ReturnHook(w, s, x);
    if |w.idle| < c.maxSize || x in w.nulled {
      tail := [];
      assert StoreRelease(w, s, c, x).world.log == w1.log;
      assert e + tail == e;
    } else {
      tail := [Destroyed(x)];
      assert StoreRelease(w, s, c, x).world.log == w1.log + tail;
      AppendAssoc(w.log, e, tail);
    }
    AppendSlice(w.log, e + tail);
  }

  lemma AppendAssoc<T>(a: seq<T>, b: seq<T>, c: seq<T>)
    ensures a + b + c == a + (b + c)
  {
  }

  lemma AppendSlice<T>(a: seq<T>, b: seq<T>)
    ensures a <= a + b && (a + b)[|a|..] == b
  {
  }

  /** The return hook's events, possibly followed by the destruction of the item,
      hold exactly one return notice. */
  lemma ReleaseEventsNotice(x: Item, p: Parent, tail: seq<Event>)
    requires tail == [] || tail == [Destroyed(x)]
    ensures ReturnNotices(ReturnEvents(x, p) + tail) == [x]
  {
    var e := ReturnEvents(x, p) + tail;
    var e1, e2 := e[1..], e[1..][1..];
    assert e[0] == ActiveSet(x, false) && e1[0] == ParentSet(x, p) && e2[0] == Notified(x, ReturnedToPool);
    assert e2[1..] == tail;
    assert ReturnNotices(e) == ReturnNotices(e1) == ReturnNotices(e2);
    assert ReturnNotices(tail) == [] by {
      if tail != [] { assert tail[1..] == []; }
    }
  }

  /** What a log gains over two stretches is what it gains over each. */
  lemma SuffixSplit(a: seq<Event>, b: seq<Event>, c: seq<Event>)
    requires a <= b <= c
    ensures a <= c && c[|a|..] == b[|a|..] + c[|b|..]
  {
  }

  /** Releasing a snapshot that never throws gives every item of the snapshot
      exactly one return notification, in snapshot order, and only appends to the log. */
  lemma {:induction false} ReleaseEachNotifiesOnce(w: World, s: PoolSettings, c: StoreConfig, items: seq<Item>)
    requires ReleaseEach(w, s, c, items).outcome == Pass
    ensures w.log <= ReleaseEach(w, s, c, items).world.log
    ensures ReturnNotices(ReleaseEach(w, s, c, items).world.log[|w.log|..]) == items
    decreases |items|
  {
    if items != [] {
      var w1 := ReleaseEachStep(w, s, c, items);
      ReleaseNotifiesOnce(w, s, c, items[0]);
      ReleaseEachNotifiesOnce(w1, s, c, items[1..]);
      var log1, log' := w1.log, ReleaseEach(w1, s, c, items[1..]).world.log;
      SuffixSplit(w.log, log1, log');
      ReturnNoticesAppend(log1[|w.log|..], log'[|log1|..]);
      assert items == [items[0]] + items[1..];
    }
  }

  /** A release loop that does not throw is a first release that does not throw,
      followed by the loop over the rest. */
  lemma ReleaseEachStep(w: World, s: PoolSettings, c: StoreConfig, items: seq<Item>) returns (w1: World)
    requires items != [] && ReleaseEach(w, s, c, items).outcome == Pass
    ensures StoreRelease(w, s, c, items[0]) == Step(w1, Pass)
    ensures ReleaseEach(w, s, c, items) == ReleaseEach(w1, s, c, items[1..])
  {
    w1 := StoreRelease(w, s, c, items[0]).world;
  }

  /** The destroy hook on each of `items` calls `Object.Destroy` once for every
      entry the engine does not report as null, in order and repeats included,
      and changes nothing else. */
  lemma {:induction false} DestroyEachDestroys(w: World, items: seq<Item>)
    ensures DestroyEach(w, items) == w.(log := w.log + DestroyCalls(Live(items, w.nulled)))
    decreases |items|
  {
    if items == [] {
      assert w.log + [] == w.log;
    } else {
      var w1 := DestroyHook(w, items[0]);
      DestroyEachDestroys(w1, items[1..]);
      if items[0] !in w.nulled {
        var rest := Live(items[1..], w.nulled);
        LiveCons(items, w.nulled);
        DestroyCallsCons(items[0], rest);
        assert w.log + [Destroyed(items[0])] + DestroyCalls(rest) == w.log + ([Destroyed(items[0])] + DestroyCalls(rest));
      }
    }
  }

  /** The live entries are exactly the entries that are not null: none of them is
      null, every entry that is not null is among them, and with no null entry
      nothing is dropped. */
  lemma {:induction false} LiveEntries(items: seq<Item>, nulled: set<Item>)
    ensures forall i :: 0 <= i < |Live(items, nulled)| ==> Live(items, nulled)[i] !in nulled
    ensures forall i :: 0 <= i < |items| && items[i] !in nulled ==> items[i] in Live(items, nulled)
    ensures (forall i :: 0 <= i < |items| ==> items[i] !in nulled) ==> Live(items, nulled) == items
    decreases |items|
  {
    if items != [] {
      var t := items[1..];
      LiveEntries(t, nulled);
      forall i | 1 <= i < |items| ensures items[i] == t[i - 1] { }
      if items[0] !in nulled {
        assert items == [items[0]] + t;
      }
    }
  }

  /** Entry `i` of the destroy calls for a list destroys entry `i` of the list. */
  lemma {:induction false} DestroyCallsIndex(items: seq<Item>)
    ensures |DestroyCalls(items)| == |items|
    ensures forall i :: 0 <= i < |items| ==> DestroyCalls(items)[i] == Destroyed(items[i])
    decreases |items|
  {
    if items != [] {
      DestroyCallsIndex(items[1..]);
      forall i | 1 <= i < |items| ensures items[i] == items[1..][i - 1] { }
    }
  }

  /** A list whose head is not null keeps its head first among its live entries. */
  lemma LiveCons(items: seq<Item>, nulled: set<Item>)
    requires items != [] && items[0] !in nulled
    ensures Live(items, nulled) == [items[0]] + Live(items[1..], nulled)
  {
  }

  /** The destroy calls for a list are the call for its head, then those for its tail. */
  lemma DestroyCallsCons(x: Item, t: seq<Item>)
    ensures DestroyCalls([x] + t) == [Destroyed(x)] + DestroyCalls(t)
  {
    assert ([x] + t)[1..] == t;
  }

  /** `Clear` empties the store, calls `Object.Destroy` once for every idle entry
      the engine does not report as null, in store order, and changes nothing
      else: the registry in particular is untouched. */
  lemma ClearDestroysIdleOnly(w: World)
    ensures StoreClear(w) == w.(idle := [], log := w.log + DestroyCalls(Live(w.idle, w.nulled)))
  {
    DestroyEachDestroys(w, w.idle);
  }

  /** Dispose on a pool that keeps the invariant never throws and leaves no item
      checked out and none idle; a second dispose then changes nothing. */
  lemma DisposeEmptiesPool(w: World, s: PoolSettings, c: StoreConfig)
    requires Inv(c, w)
    ensures var Step(w', o) := Dispose(w, s, c);
      && o == Pass && w'.registry == [] && w'.idle == [] && Inv(c, w')
      && Dispose(w', s, c) == Step(w', Pass)
  {
    ReleaseEachOfRegistry(w, s, c, w.registry);
    var w1 := ReleaseAll(w, s, c).world;
    ClearDestroysIdleOnly(w1);
    var w' := StoreClear(w1);
    ClearDestroysIdleOnly(w');
    assert Live([], w'.nulled) == [];
    assert w'.log + [] == w'.log;
  }

  /** `ReleaseRandom` with a drawn index: on an empty registry indexing throws and
      nothing changes; otherwise exactly the item at that index is released, which
      never throws on a pool that keeps the invariant. */
  lemma ReleaseAtReleasesIndexed(w: World, s: PoolSettings, c: StoreConfig, index: nat)
    requires Inv(c, w)
    requires index == 0 || index < |w.registry|
    ensures var Step(w', o) := ReleaseAt(w, s, c, index);
      && (w.registry == [] ==> o == Fail(IndexOutOfRange) && w' == w)
      && (w.registry != [] ==>
            o == Pass && |w'.registry| == |w.registry| - 1 && w.registry[index] !in w'.registry)
      && Inv(c, w')
  {
    if w.registry != [] {
      var x := w.registry[index];
      if c.collectionChecks { DisjointMember(w.registry, w.idle, index); }
      ReleaseReturnsOrDestroys(w, s, c, x);
      RemoveKeepsOrder(w.registry, x);
    }
  }

  // ------------------------------------------------------------ conservation

  /** A step that only appends `e` to the log, keeps every accounted item
      accounted, and accounts for every item `e` instantiates keeps `Conserved`. */
  lemma ConservedAppend(w: World, w': World, e: seq<Event>)
    requires Conserved(w) && w'.log == w.log + e
    requires forall x :: Accounted(w, x) ==> Accounted(w', x)
    requires forall i :: 0 <= i < |e| && e[i].Instantiated? ==> Accounted(w', e[i].item)
    ensures Conserved(w')
  {
    forall i | 0 <= i < |w'.log| && w'.log[i].Instantiated? ensures Accounted(w', w'.log[i].item) {
      if i < |w.log| {
        assert w'.log[i] == w.log[i];
      } else {
        assert w'.log[i] == e[i - |w.log|];
      }
    }
  }

  /** `Get` loses no item: the one it takes leaves the store for the registry,
      and the one it creates is registered. */
  lemma GetConserves(w: World, s: PoolSettings, c: StoreConfig, created: Item)
    requires Conserved(w)
    ensures Conserved(StoreGet(w, s, c, created).world)
  {
    var w' := StoreGet(w, s, c, created).world;
    if w.idle == [] {
      var e := [Instantiated(created, s.ownedItemPrefab, s.poolParent)] + TakeEvents(created, s.targetParent);
      assert w'.log == w.log + e;
      forall x | Accounted(w, x) ensures Accounted(w', x) {
        if x in w.registry {
          AddIfAbsentKeeps(w.registry, created, x);
          AddIfAbsentKeeps(AddIfAbsent(w.registry, created), created, x);
        }
      }
      forall i | 0 <= i < |e| && e[i].Instantiated? ensures Accounted(w', e[i].item) {
        assert i == 0;
      }
      ConservedAppend(w, w', e);
    } else {
      var x := Top(c.discipline, w.idle);
      var e := TakeEvents(x, s.targetParent);
      forall y | Accounted(w, y) ensures Accounted(w', y) {
        if y in w.registry {
          AddIfAbsentKeeps(w.registry, x, y);
        } else if y in w.idle && y != x {
          assert y in multiset(w.idle);
          assert y in multiset(w'.idle);
        }
      }
      ConservedAppend(w, w', e);
    }
  }

  /** `Release` loses no item: the released one moves to the store or has the
      destroy hook run on it. */
  lemma ReleaseConserves(w: World, s: PoolSettings, c: StoreConfig, item: Item)
    requires Conserved(w)
    ensures Conserved(StoreRelease(w, s, c, item).world)
  {
    if !(c.collectionChecks && item in w.idle) {
      var destroy := ReleaseLog(w, s, c, item);
      ReleaseAccounts(w, s, c, item);
      ReturnEventsQuiet(item, s.poolParent, destroy);
      ConservedAppend(w, StoreRelease(w, s, c, item).world, ReturnEvents(item, s.poolParent) + destroy);
    }
  }

  /** A release that does not throw keeps every accounted item accounted. */
  lemma ReleaseAccounts(w: World, s: PoolSettings, c: StoreConfig, item: Item)
    requires !(c.collectionChecks && item in w.idle)
    ensures forall y :: Accounted(w, y) ==> Accounted(StoreRelease(w, s, c, item).world, y)
  {
    var w' := StoreRelease(w, s, c, item).world;
    forall y | Accounted(w, y) ensures Accounted(w', y) {
      if y == item {
        if |w.idle| < c.maxSize {
          assert item in multiset(w'.idle);
        } else if item !in w.nulled {
          assert w'.log[|w'.log| - 1] == Destroyed(item);
        }
      } else {
        RemoveKeepsOthers(w.registry, item, y);
        if y in w.idle && |w.idle| < c.maxSize {
          assert y in multiset(w.idle);
          assert y in multiset(w'.idle);
        }
      }
    }
  }

  /** The events of a release instantiate nothing. */
  lemma ReturnEventsQuiet(item: Item, p: Parent, destroy: seq<Event>)
    requires destroy == [] || destroy == [Destroyed(item)]
    ensures forall i :: 0 <= i < |ReturnEvents(item, p) + destroy| ==> !(ReturnEvents(item, p) + destroy)[i].Instantiated?
  {
    var e := ReturnEvents(item, p) + destroy;
    forall i | 0 <= i < |e| ensures !e[i].Instantiated? {
      if i >= 3 { assert e[i] == destroy[i - 3]; }
    }
  }

  /** `Clear` loses no item: every idle one is destroyed or already null. */
  lemma ClearConserves(w: World)
    requires Conserved(w)
    ensures Conserved(StoreClear(w))
  {
    ClearDestroysIdleOnly(w);
    var w' := StoreClear(w);
    var l := Live(w.idle, w.nulled);
    var e := DestroyCalls(l);
    LiveEntries(w.idle, w.nulled);
    DestroyCallsIndex(l);
    forall y | Accounted(w, y) ensures Accounted(w', y) {
      if y in w.idle && y !in w.nulled {
        assert w.idle[IndexOf(w.idle, y)] == y;
        var j := IndexOf(l, y);
        assert e[j] == Destroyed(y);
        assert w'.log[|w.log| + j] == Destroyed(y);
      }
    }
    ConservedAppend(w, w', e);
  }

  /** `ReleaseAll` loses no item, whether or not a release throws. */
  lemma {:induction false} ReleaseEachConserves(w: World, s: PoolSettings, c: StoreConfig, items: seq<Item>)
    requires Conserved(w)
    ensures Conserved(ReleaseEach(w, s, c, items).world)
    decreases |items|
  {
    if items != [] {
      ReleaseConserves(w, s, c, items[0]);
      ReleaseEachConserves(StoreRelease(w, s, c, items[0]).world, s, c, items[1..]);
    }
  }

  /** `ReleaseRandom` loses no item. */
  lemma ReleaseAtConserves(w: World, s: PoolSettings, c: StoreConfig, index: nat)
    requires Conserved(w)
    ensures Conserved(ReleaseAt(w, s, c, index).world)
  {
    if index < |w.registry| {
      ReleaseConserves(w, s, c, w.registry[index]);
    }
  }

  /** Dispose loses no item, whether or not a release throws. */
  lemma DisposeConserves(w: World, s: PoolSettings, c: StoreConfig)
    requires Conserved(w)
    ensures Conserved(Dispose(w, s, c).world)
  {
    ReleaseEachConserves(w, s, c, w.registry);
    ClearConserves(ReleaseAll(w, s, c).world);
  }

  /** An item idle twice, which a store without collection checks allows, has
      `Object.Destroy` called on it twice when the store is cleared. */
  lemma ClearDestroysRepeatedEntryTwice(x: Item)
    ensures StoreClear(World([], [x, x], {}, [])).log == [Destroyed(x), Destroyed(x)]
  {
    var w := World([], [x, x], {}, []);
    ClearDestroysIdleOnly(w);
    LiveEntries(w.idle, w.nulled);
    DestroyCallsIndex([x, x]);
  }

  /** The end of a frame keeps both invariants. */
  lemma FrameEndKeepsInvariants(c: StoreConfig, w: World, gone: set<Item>)
    requires Inv(c, w) && Conserved(w)
    ensures Inv(c, FrameEnd(w, gone)) && Conserved(FrameEnd(w, gone))
  {
    ConservedAppend(w, FrameEnd(w, gone), []);
  }
}
