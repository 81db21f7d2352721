/** A value that may be absent: the session's logged-in user, a form check's
    first complaint. */
module Optional {

  datatype Option<+T> = None | Some(value: T)
}
