/** Optional values, used for the editor's nullable selection and edit ids. */
module Wrappers {

  datatype Option<+T> = None | Some(value: T)
}
