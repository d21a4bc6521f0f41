/** The optional value used by the parsers and by the MAC's job slot. */
module Wrappers {

  datatype Option<+T> = None | Some(value: T)
}
