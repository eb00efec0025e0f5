/** Optional values and error-carrying results, used wherever the Java code
    can hold `null` or throw. */
module Results {

  datatype Option<+T> = None | Some(value: T)

  datatype Result<+T, +E> = Ok(value: T) | Err(error: E)

}
