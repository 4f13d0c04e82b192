/** A cell that may be missing. pandas stores a missing cell as NaN; the model makes the absence explicit. */
module Options {

  datatype Option<+T> = None | Some(value: T)

}
