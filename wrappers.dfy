/** The optional value used wherever the client reads something that may be
    missing (an environment variable, a response header, a failed upload). */
module Wrappers {
  datatype Option<+T> = None | Some(value: T)
}
