/** The optional value used by the per-line parsers: a line either yields one
    block-set key or is skipped. */
module Wrappers {

  datatype Option<+T> = None | Some(value: T)
}
