/** The optional value used across the model: no match for a search, no
    latest session for an empty season, no toggle button, and, for a
    fetch, a JSON parse or a property access that throws, the failure the
    pages catch and turn into an empty list. */
module Wrappers {

  datatype Option<+T> = None | Some(value: T)
}
