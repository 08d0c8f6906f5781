/** The optional value used for JSON keys that may be absent, for the
    command-line options that may be left out, and for a line that does or
    does not parse. */
module Wrappers {
  datatype Option<+T> = None | Some(value: T)
}
