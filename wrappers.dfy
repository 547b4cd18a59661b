/** Option stands for a C# reference that may be null: None is null. */
module Wrappers {
  datatype Option<+T> = None | Some(value: T)
}
