/** The optional value used for Swift's optionals (`IndexPath?`, `Int?`, `Date?`). */
module Wrappers {

  datatype Option<+T> = None | Some(value: T)
}
