/** The Option datatype used for lookups that can miss (a C# `null` result). */
module Wrappers {

  datatype Option<+T> = None | Some(value: T)
}
