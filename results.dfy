/** Optional values and outcomes shared by the rest of the model.
    `None` stands for JavaScript's `undefined` (or `null`); an `Err` is a
    thrown error or a rejected promise, carrying its message. */
module Results {

  datatype Option<+T> = None | Some(value: T)

  datatype Result<+T> = Ok(value: T) | Err(message: string)
}
