/** Optional values: the result of a collaborator that may fail or find nothing. */
module Wrappers {

  datatype Option<+T> = None | Some(value: T)

}
