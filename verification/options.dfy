/** An optional value: the JavaScript `undefined`, or a value that is present. */
module Options {

  datatype Option<+T> = None | Some(value: T)
}
