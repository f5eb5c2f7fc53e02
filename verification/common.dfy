/** Small shared vocabulary: an optional value and the octet type of bodies on the wire. */
module Common {

  datatype Option<T> = None | Some(value: T)

  /** One octet of a request or response body. */
  newtype byte = b: int | 0 <= b < 256
}
