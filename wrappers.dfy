/** The optional value used for absent page elements, failed scrapes and
    failed translations. */
module Wrappers {

  datatype Option<+T> = None | Some(value: T)
}
