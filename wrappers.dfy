/** The optional value used for BFS parents and trie lookups. */
module Wrappers {
  datatype Option<T> = None | Some(value: T)
}
