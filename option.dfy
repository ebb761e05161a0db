/** The optional value used where Conways_game_of_life.py or life.py returns a sentinel or raises. */
module Wrappers {

  datatype Option<+T> = None | Some(value: T)
}
