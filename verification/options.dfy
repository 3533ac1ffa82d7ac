/** Values that may be missing. The model uses `None` for a population slot
    that the source leaves without an assigned value, and for a fitness vector
    that the real-number idealisation cannot produce. */
module Options {

  datatype Option<+T> = None | Some(value: T)
}
