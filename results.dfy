/** Option and Result types shared by the modules of the cron model.
    A Python exception that escapes an operation becomes an Err value. */
module Results {

  datatype Option<T> = None | Some(value: T)

  datatype Result<T, E> = Ok(value: T) | Err(error: E)
}
