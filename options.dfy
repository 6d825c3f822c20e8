/** An optional value: a JavaScript `undefined` / "not found" result. */
module Options {
  datatype Option<+T> = None | Some(value: T)
}
