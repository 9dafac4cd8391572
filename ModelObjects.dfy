/**
 * The values the save path works on: the persisted model object (an id and its
 * attributes), the parameter group that carries a candidate to be saved, and
 * the failures the datastore callbacks can raise.
 */
module ModelObjects {
  import opened Wrappers
  import opened JavaUuid

  /**
   * A persisted model object (`ModelObjectAbs`): its id and everything else it
   * holds. Java's `equals` is the subclass's own; here it is value equality.
   */
  datatype ModelObject<V> = ModelObject(id: Uuid, attributes: V)

  /** `ModelObjectParameterGroup`: the candidate to save (possibly null) and its class name. */
  datatype ModelObjectParameterGroup<V> = ModelObjectParameterGroup(
    modelObject: Option<ModelObject<V>>,
    modelObjectClass: string)

  /** The exceptions a save can end in. */
  datatype DatastoreError =
    | DatastoreSaveException(message: string)      // thrown by a store or update callback
    | DatastoreRetrieveException(message: string)  // a failure of the retrieve callback
    | NullPointerException                         // a callback the save needs was never supplied
}
