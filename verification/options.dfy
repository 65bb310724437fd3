/** The conventional Some/None wrapper, used for reads that may fail and
    numbers that may not parse. */
module Options {
  datatype Option<+T> = None | Some(value: T)
}
