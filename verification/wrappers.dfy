/** The optional value used wherever the game keeps `null` in a slot (food, pending direction, expiry). */
module Wrappers {

  datatype Option<+T> = None | Some(value: T)

}
