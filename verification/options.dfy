/** The optional value used for a frame slot: `None` is a slot the browser
    reports as empty (`undefined`), `Some(img)` a slot holding a decoded image. */
module Options {

  datatype Option<+T> = None | Some(value: T)

}
