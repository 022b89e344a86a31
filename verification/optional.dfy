/** A value that may be absent: a missing joint, an empty OpenCV matrix, an
    undefined result. */
module Optional {

  datatype Option<T> = None | Some(value: T)
}
