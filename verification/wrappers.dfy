/** The optional value the page script expresses with `null`: an element that
    `getElementById` did not find, an attribute that is absent. */
module Wrappers {

  datatype Option<+T> = None | Some(value: T)
}
