/** The absent-or-present value used for the collaborators' `None` results. */
module Optional {

  datatype Option<T> = None | Some(value: T)
}
