/** The optional value used wherever the program reads a key that may be
    absent or computes a value that may be missing (Python's `None`). */
module Optional {

  datatype Option<+T> = None | Some(value: T)
}
