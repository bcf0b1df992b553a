/** The optional value used where the bot's code works with `None`. */
module Wrappers {

  datatype Option<+T> = None | Some(value: T)
}
