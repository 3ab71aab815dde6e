/** The optional value used where the bot's code returns `None` or nothing. */
module Wrappers {

  datatype Option<+T> = None | Some(value: T)
}
