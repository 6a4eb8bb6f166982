/** The optional value shared by the loaders: a CPE string that may not
    decompose, a load that may stop at a line or with an error. */
module Wrappers {
  datatype Option<T> = None | Some(value: T)
}
