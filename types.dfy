/** Values shared by the pool controller, its settings, its store and its builder. */
module Types {

  /** A pooled item: an opaque identity. The pool never copies an item, it only
      moves references to it between the registry and the idle store, so a
      reference type with no state of its own is enough. A new `Item` stands for
      the object that `Object.Instantiate` creates. */
  class Item {
    constructor () {}
  }

  /** A Unity `Transform` reference, which may be null. */
  datatype Parent = NoParent | Transform(id: nat)

  /** The item prefab that `Object.Instantiate` clones; only its name is observable. */
  datatype Prefab = Prefab(name: string)

  /** The pool discipline tag. A C# enum variable can hold any integer, so a tag
      that names neither declared member is `Undeclared`. */
  datatype PoolType = Stack | LinkedList | Undeclared(tag: int)

  /** Which `IPoolItem` notification an item received. */
  datatype Notice = TakenFromPool | ReturnedToPool

  /** The engine side effects of the hooks, recorded in the order they happen. */
  datatype Event =
    | Instantiated(item: Item, prefab: Prefab, parent: Parent)  // Object.Instantiate(prefab, parent)
    | ParentSet(item: Item, parent: Parent)                     // transform.SetParent(parent)
    | ActiveSet(item: Item, active: bool)                       // gameObject.SetActive(active)
    | Notified(item: Item, notice: Notice)                      // IPoolItem.OnTakeFromPool / OnReturnToPool
    | Destroyed(item: Item)                                     // Object.Destroy(gameObject)

  /** The exceptions the modelled operations can raise. */
  datatype PoolError =
    | DuplicateRelease     // the store's collection check: the item is already idle
    | IndexOutOfRange      // indexing the empty registry in ReleaseRandom
    | PoolTypeOutOfRange   // the constructor's switch over an undeclared pool type

  /** The outcome of an operation that returns nothing but may throw. */
  datatype Outcome = Pass | Fail(error: PoolError)

  datatype Option<+T> = None | Some(value: T)

  datatype Result<+T> = Success(value: T) | Failure(error: PoolError)
}
