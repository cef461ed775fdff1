/** The optional value used for the video record's thumbnail and for search results. */
module Wrappers {

  datatype Option<+T> = None | Some(value: T)
}
