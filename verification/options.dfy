/** The absent-value result shared by both containers: the source signals a
    missing element or key with a NULL pointer, modelled here as `None`. */
module Options {

  datatype Option<+T> = None | Some(value: T)

}
