/** The optional value returned by the decoders that the model uses as
    partners of the driver's encoders. */
module Options {

  datatype Option<+T> = None | Some(value: T)
}
