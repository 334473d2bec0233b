/** The optional value used for the scraper's failure paths. */
module Wrappers {

  datatype Option<+T> = None | Some(value: T)
}
