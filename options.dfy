/** The optional value used wherever the source either produces a value or
    raises and catches an exception (an int() that fails, a list index that
    does not exist, a model that was never loaded). */
module Options {

  datatype Option<T> = None | Some(value: T)

}
