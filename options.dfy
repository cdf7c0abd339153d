/** The optional value the board's move queries return: Python's `None` or a (row, col) pair. */
module Options {
  datatype Option<T> = None | Some(value: T)
}
