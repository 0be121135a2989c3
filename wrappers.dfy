/** The optional values of the C++ code (`std::optional`), with the
    shared pointer inside a present optional taken to be non-null. */
module Wrappers {

  datatype Option<+T> = None | Some(value: T)
}
