/** Optional values: `None` stands where the source would return NULL or
    perform a read it has no defined answer for. */
module Options {

  datatype Option<+T> = None | Some(value: T)

}
