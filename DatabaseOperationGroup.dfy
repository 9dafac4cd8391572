/**
 * `DatabaseOperationGroup` (identical in both package trees): an immutable
 * bundle of the four callbacks a service hands to the executor. Each callback
 * works on the backend behind the SQL session, here an abstract state `D`: it
 * sees the state, may change it, and may throw.
 */
module DatabaseOperationGroup {
  import opened Wrappers
  import opened JavaUuid
  import opened ModelObjects

  /** What a callback leaves behind: the backend state after it ran and its outcome. */
  datatype Reply<X, D> = Reply(state: D, outcome: Result<X, DatastoreError>)

  /** `StoreFunction.apply(one, session)`: inserts a new model object. */
  type StoreFunction<!V, !D> = (ModelObject<V>, D) -> Reply<(), D>

  /** `UpdateFunction.apply(updated, existing, session)`: rewrites a stored model object. */
  type UpdateFunction<!V, !D> = (ModelObject<V>, ModelObject<V>, D) -> Reply<(), D>

  /** `CascadeUpdateFunction.apply(updated, existing, session)`: updates contained items, giving the new object. */
  type CascadeUpdateFunction<!V, !D> = (ModelObject<V>, ModelObject<V>, D) -> Reply<ModelObject<V>, D>

  /** The retrieve function (`TwoParameterFunction<UUID, SqlSession, T>`): the object under an id, or null. */
  type RetrieveFunction<!V, !D> = (Uuid, D) -> Result<Option<ModelObject<V>>, DatastoreError>

  /**
   * The bundle; its four final fields are its accessors (`getStoreFunction`,
   * `getUpdateFunction`, `getCascadeUpdateFunction`, `getRetrieveFunction`),
   * which only read. A field is `None` where Java holds null.
   */
  datatype DatabaseOperationGroup<!V, !D> = DatabaseOperationGroup(
    storeFunction: Option<StoreFunction<V, D>>,
    updateFunction: Option<UpdateFunction<V, D>>,
    cascadeUpdateFunction: Option<CascadeUpdateFunction<V, D>>,
    retrieveFunction: Option<RetrieveFunction<V, D>>)

  /**
   * The four-argument constructor: every accessor returns exactly what was passed
   * in. There is no validation, so any argument may be absent.
   */
  function Make<V, D>(
    store: Option<StoreFunction<V, D>>,
    update: Option<UpdateFunction<V, D>>,
    cascade: Option<CascadeUpdateFunction<V, D>>,
    retrieve: Option<RetrieveFunction<V, D>>): (g: DatabaseOperationGroup<V, D>)
    ensures g.storeFunction == store && g.updateFunction == update
    ensures g.cascadeUpdateFunction == cascade && g.retrieveFunction == retrieve
  {
    DatabaseOperationGroup(store, update, cascade, retrieve)
  }

  /**
   * The three-argument constructor, for objects with nothing to cascade: the
   * cascade update function is null and the other three are kept.
   */
  function MakeWithoutCascade<V, D>(
    store: Option<StoreFunction<V, D>>,
    update: Option<UpdateFunction<V, D>>,
    retrieve: Option<RetrieveFunction<V, D>>): (g: DatabaseOperationGroup<V, D>)
    ensures g.cascadeUpdateFunction.None?
    ensures g.storeFunction == store && g.updateFunction == update && g.retrieveFunction == retrieve
  {
    Make(store, update, None, retrieve)
  }

  /**
   * Two bundles built from the same callbacks are the same bundle, and a bundle
   * is rebuilt unchanged from its own accessors: the fields are fixed at
   * construction and reading them changes nothing.
   */
  lemma AccessorsDetermineGroup<V, D>(g: DatabaseOperationGroup<V, D>)
    ensures Make(g.storeFunction, g.updateFunction, g.cascadeUpdateFunction, g.retrieveFunction) == g
  {
  }
}
