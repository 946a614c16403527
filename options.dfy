/** An optional value, used where NormalMerger holds a pointer that may be null. */
module Options {

  datatype Option<+T> = None | Some(value: T)
}
