/** The optional value used wherever the C++ code returns a nullable pointer
    or a `boost::optional`. */
module Wrappers {

  datatype Option<+T> = None | Some(value: T)
}
