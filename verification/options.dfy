/** An optional value: what a lookup yields when it may find nothing. */
module Options {

  datatype Option<+T> = None | Some(value: T)

}
