/** The two-stage fluent builder of `Runtime/Pool_Builder.cs`. One `PoolBuilder`
    object implements both stages: `Builder()` hands it out as the first stage,
    whose only operation is `WithSettings`, and `WithSettings` hands the same
    object back as the second stage, which offers the two parent overrides and
    `Build`. */
module Construction {
  import opened Types
  import opened Settings
  import opened PoolModel
  import opened Pooling

  class PoolBuilder {
    /** `_settings`; `None` until `WithSettings` has been called. */
    var settings: Option<PoolSettings>
    var poolParent: Parent
    var targetParent: Parent

    constructor ()
      ensures settings == None && poolParent == NoParent && targetParent == NoParent
    {
      settings := None;
      poolParent := NoParent;
      targetParent := NoParent;
    }

    /** Stores the settings and returns this builder as the second stage. */
    method WithSettings(s: PoolSettings) returns (b: PoolBuilder)
      modifies this
      ensures b == this
      ensures settings == Some(s)
      ensures poolParent == old(poolParent) && targetParent == old(targetParent)
    {
      settings := Some(s);
      b := this;
    }

    /** Overwrites the pool parent and returns this builder. */
    method WithPoolParent(p: Parent) returns (b: PoolBuilder)
      modifies this
      ensures b == this
      ensures poolParent == p
      ensures settings == old(settings) && targetParent == old(targetParent)
    {
      poolParent := p;
      b := this;
    }

    /** Overwrites the target parent and returns this builder. */
    method WithTargetParent(p: Parent) returns (b: PoolBuilder)
      modifies this
      ensures b == this
      ensures targetParent == p
      ensures settings == old(settings) && poolParent == old(poolParent)
    {
      targetParent := p;
      b := this;
    }

    /** Passes the three stored fields to the pool constructor. Only the second
        stage offers `Build`, so the settings have been stored. */
    method Build() returns (r: Result<Pool>)
      requires settings.Some?
      ensures r.Failure? <==> settings.value.poolType.Undeclared?
      ensures r.Failure? ==> r.error == PoolTypeOutOfRange
      ensures r.Success? ==>
                && fresh(r.value) && fresh(r.value.itemPool) && r.value.Valid()
                && r.value.settings == WithParentOverrides(settings.value, poolParent, targetParent)
                && r.value.itemPool.Config() == StoreConfigFor(settings.value).value
                && r.value.outItems == [] && r.value.itemPool.idle == []
    {
      r := NewPool(settings.value, poolParent, targetParent);
    }
  }

  /** `Pool<T>.Builder()`: a fresh builder with no settings and null parents. */
  method Builder() returns (b: PoolBuilder)
    ensures fresh(b)
    ensures b.settings == None && b.poolParent == NoParent && b.targetParent == NoParent
  {
    b := new PoolBuilder();
  }

  /** `Builder().WithSettings(s).WithPoolParent(first).WithPoolParent(second).Build()`:
      the second call replaces the first, so `first` never reaches the pool, and a
      null `second` leaves the pool parent of `s` in place. */
  method BuildWithPoolParentTwice(s: PoolSettings, first: Parent, second: Parent) returns (r: Result<Pool>)
    ensures r.Failure? <==> s.poolType.Undeclared?
    ensures r.Success? ==>
              && r.value.settings.poolParent == (if second.NoParent? then s.poolParent else second)
              && r.value.settings.targetParent == s.targetParent
              && ReadOnlyPart(r.value.settings) == ReadOnlyPart(s)
  {
    var b := Builder();
    b := b.WithSettings(s);
    b := b.WithPoolParent(first);
    b := b.WithPoolParent(second);
    r := b.Build();
  }
}
