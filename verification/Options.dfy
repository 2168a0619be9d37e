/**
 A value that may be absent: where the source returns NULL for nothing found, or
 cannot read what it was given.
 */
module Options {

  datatype Option<+T> = None | Some(value: T)
}
