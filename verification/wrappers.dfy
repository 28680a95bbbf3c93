/** Optional values, used where the engine leaves a value unset (an
    uninitialised best score or move) or an input stream runs dry. */
module Wrappers {

  datatype Option<+T> = None | Some(value: T)
}
