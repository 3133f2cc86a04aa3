/** The optional value used wherever the Java code either produces a value
    or signals failure (a thrown NumberFormatException, a search that finds nothing). */
module Options {

  datatype Option<+T> = None | Some(value: T)
}
