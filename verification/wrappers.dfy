/** A value that may be absent: a missing form field, a lookup that finds
    nothing, a date range that runs past the calendar. */
module Wrappers {
  datatype Option<+T> = None | Some(value: T)
}
