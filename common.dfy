/** Small shared vocabulary: an optional value, standing for JavaScript's `null`/`undefined`. */
module Common {

  datatype Option<+T> = None | Some(value: T)

}
