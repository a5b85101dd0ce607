/** Optional values: the result of a parse that may fail and of an aggregate
    (median, mean, mode) taken over no values at all. */
module Options {

  datatype Option<+T> = None | Some(value: T)

}
