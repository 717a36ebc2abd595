/** An optional value: a JavaScript `undefined`, a failed backend reply or a missing lookup is `None`. */
module Options {
  datatype Option<+T> = None | Some(value: T)
}
