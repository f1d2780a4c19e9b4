/** The optional value used for an answer slot: `None` stands for the
    source's `null` (no option chosen yet). */
module Wrappers {

  datatype Option<+T> = None | Some(value: T)
}
