/** Optional values, standing in for Kotlin's nullable types (`T?`). */
module Optional {

  datatype Option<+T> = None | Some(value: T)
}
