/** The optional value that stands for JavaScript's `null` / `NaN` results. */
module Common {

  datatype Option<+T> = None | Some(value: T)
}
