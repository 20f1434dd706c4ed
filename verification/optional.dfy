/** An optional value; `None` stands for JavaScript's `undefined`. */
module Optional {

  datatype Option<+T> = None | Some(value: T)
}
