/** Small helper datatype shared by the other modules. */
module Wrappers {

  /** A value that may be absent (C# null, or a search that found nothing). */
  datatype Option<+T> = None | Some(value: T)
}
