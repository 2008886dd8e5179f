/** An optional value: the absent group of a post, the missing requester of a guest request. */
module Wrappers {

  datatype Option<+T> = None | Some(value: T)
}
