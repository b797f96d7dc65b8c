/** A value that may be absent: a key missing from an options object, or a
    decoder that found nothing it recognises. */
module Optional {

  datatype Option<+T> = None | Some(value: T)

}
