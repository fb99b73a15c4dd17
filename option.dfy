/** An optional value: used for state that may be absent, such as a log file that does not exist. */
module Optional {

  datatype Option<+T> = None | Some(value: T)
}
