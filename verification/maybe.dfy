/** The optional value shared by every module of the model: the source's
    `Option` and the "this would have panicked" outcome of partial operations. */
module Maybe {

  datatype Option<+T> = None | Some(value: T)
}
