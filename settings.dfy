/** `PoolSettings<T>`: the configuration of one pool. It is a C# struct, so it has
    value semantics: copying it copies every field, and its two setters change
    only the variable they are called on. A datatype gives exactly that; calling
    a setter on a struct variable `v` is modelled as `v := v.SetPoolParent(p)`. */
module Settings {
  import opened Types

  datatype PoolSettings = PoolSettings(
    ownedItemPrefab: Prefab,
    poolParent: Parent,
    targetParent: Parent,
    poolType: PoolType,
    prewarmSize: int,
    maxSize: int,
    collectionChecks: bool)
  {
    /** `SetPoolParent(parent)`: replaces the idle items' parent and nothing else. */
    function SetPoolParent(parent: Parent): (r: PoolSettings)
      ensures r.poolParent == parent
      ensures r.targetParent == targetParent
      ensures ReadOnlyPart(r) == ReadOnlyPart(this)
    {
      this.(poolParent := parent)
    }

    /** `SetTargetParent(parent)`: replaces the checked-out items' parent and nothing else. */
    function SetTargetParent(parent: Parent): (r: PoolSettings)
      ensures r.targetParent == parent
      ensures r.poolParent == poolParent
      ensures ReadOnlyPart(r) == ReadOnlyPart(this)
    {
      this.(targetParent := parent)
    }
  }

  /** The five fields that have a getter and no setter. */
  datatype ReadOnlyFields = ReadOnlyFields(
    prefab: Prefab, poolType: PoolType, prewarmSize: int, maxSize: int, collectionChecks: bool)

  function ReadOnlyPart(s: PoolSettings): ReadOnlyFields {
    ReadOnlyFields(s.ownedItemPrefab, s.poolType, s.prewarmSize, s.maxSize, s.collectionChecks)
  }

  /** One call of a setter on a settings variable. */
  datatype SetterCall = CallSetPoolParent(parent: Parent) | CallSetTargetParent(parent: Parent)

  /** The value of a settings variable after a sequence of setter calls, first call first. */
  function ApplyCalls(s: PoolSettings, calls: seq<SetterCall>): PoolSettings
    decreases |calls|
  {
    if calls == [] then s
    else
      var next := match calls[0]
        case CallSetPoolParent(p) => s.SetPoolParent(p)
        case CallSetTargetParent(p) => s.SetTargetParent(p);
      ApplyCalls(next, calls[1..])
  }

  /** The parent that the last `SetPoolParent` call in `calls` passed, or `initial` if there is none. */
  function LastPoolParent(calls: seq<SetterCall>, initial: Parent): Parent
    decreases |calls|
  {
    if calls == [] then initial
    else LastPoolParent(calls[1..], if calls[0].CallSetPoolParent? then calls[0].parent else initial)
  }

  /** The parent that the last `SetTargetParent` call in `calls` passed, or `initial` if there is none. */
  function LastTargetParent(calls: seq<SetterCall>, initial: Parent): Parent
    decreases |calls|
  {
    if calls == [] then initial
    else LastTargetParent(calls[1..], if calls[0].CallSetTargetParent? then calls[0].parent else initial)
  }

  /** No sequence of setter calls changes the prefab, the pool type, the prewarm
      size, the maximum size or the collection-checks flag. */
  lemma {:induction false} SettersKeepReadOnlyFields(s: PoolSettings, calls: seq<SetterCall>)
    ensures ReadOnlyPart(ApplyCalls(s, calls)) == ReadOnlyPart(s)
    decreases |calls|
  {
    if calls != [] {
      var next := match calls[0]
        case CallSetPoolParent(p) => s.SetPoolParent(p)
        case CallSetTargetParent(p) => s.SetTargetParent(p);
      SettersKeepReadOnlyFields(next, calls[1..]);
    }
  }

  /** After any sequence of setter calls each parent is the one its last setter
      call passed: a later call overrides an earlier one, and a call of the other
      setter does not disturb it. */
  lemma {:induction false} LastSetterCallWins(s: PoolSettings, calls: seq<SetterCall>)
    ensures ApplyCalls(s, calls).poolParent == LastPoolParent(calls, s.poolParent)
    ensures ApplyCalls(s, calls).targetParent == LastTargetParent(calls, s.targetParent)
    decreases |calls|
  {
    if calls != [] {
      var next := match calls[0]
        case CallSetPoolParent(p) => s.SetPoolParent(p)
        case CallSetTargetParent(p) => s.SetTargetParent(p);
      LastSetterCallWins(next, calls[1..]);
    }
  }

  /** The two setters touch disjoint fields, so their order does not matter. */
  lemma SettersCommute(s: PoolSettings, p: Parent, q: Parent)
    ensures s.SetPoolParent(p).SetTargetParent(q) == s.SetTargetParent(q).SetPoolParent(p)
  {
  }

  /** The constructor's overrides: each parent that is passed as non-null replaces
      the stored one; a null parent leaves the stored one in place. */
  function WithParentOverrides(s: PoolSettings, poolParent: Parent, targetParent: Parent): (r: PoolSettings)
    ensures r.poolParent == (if poolParent.NoParent? then s.poolParent else poolParent)
    ensures r.targetParent == (if targetParent.NoParent? then s.targetParent else targetParent)
    ensures ReadOnlyPart(r) == ReadOnlyPart(s)
    ensures poolParent.NoParent? && targetParent.NoParent? ==> r == s
  {
    var s1 := if poolParent.NoParent? then s else s.SetPoolParent(poolParent);
    if targetParent.NoParent? then s1 else s1.SetTargetParent(targetParent)
  }
}
