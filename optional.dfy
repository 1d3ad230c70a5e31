/** A value that may be absent: the model of `number | null` and of a missing stored entry. */
module Optional {

  datatype Option<+T> = None | Some(value: T)
}
