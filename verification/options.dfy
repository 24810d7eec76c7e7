/** The optional value used for operations that can fail. In the modelled
    program such a failure is a run-time panic; here it is the value None. */
module Options {

  datatype Option<+T> = None | Some(value: T)
}
