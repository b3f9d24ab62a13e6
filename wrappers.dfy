/** Optional values: `None` stands for JavaScript's `null`, `undefined` or `NaN`
    wherever the modelled code tests a value for presence. */
module Wrappers {

  datatype Option<+T> = None | Some(value: T)
}
