/** The conventional optional value, used for cells that pandas leaves
    undefined (NaN) and for trials that fail. */
module Wrappers {

  datatype Option<+T> = None | Some(value: T)
}
