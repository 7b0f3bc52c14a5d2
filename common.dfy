/** Values the C# code expresses with `null`. */
module Common {

  /** A reference or nullable value: `None` stands for `null`. */
  datatype Option<+T> = None | Some(value: T)
}
