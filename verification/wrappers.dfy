/** Optional values. In this model `None` also stands for JavaScript's NaN
    wherever a number may fail to parse. */
module Wrappers {

  datatype Option<+T> = None | Some(value: T)

}
