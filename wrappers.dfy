/** Optional values, used for the absent game id, a missing request field and a
    board generation whose random draws ran out. */
module Wrappers {

  datatype Option<+T> = None | Some(value: T)
}
