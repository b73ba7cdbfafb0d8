/** The optional value used for empty squares and for "no move found". */
module Options {
  datatype Option<+T> = None | Some(value: T)
}
