/** The optional value the puzzle uses for a hitbox's last collision tick
    (Python's `None` or an integer). */
module Options {
  datatype Option<T> = None | Some(value: T)
}
