/** The optional value shared by the tree (a node's root link, an object's node) and the timers (a lookup's answer). */
module Wrappers {
  datatype Option<T> = None | Some(value: T)
}
