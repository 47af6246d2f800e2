/** Optional values: Swift's `Optional`, and the outcome of an operation that
    can fail (a failed scan, a trapping conversion). */
module Options {

  datatype Option<+T> = None | Some(value: T)
}
