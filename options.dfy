/** The optional value used for `check_winner`'s answer and the selector's best move. */
module Options {
  datatype Option<T> = None | Some(value: T)
}
