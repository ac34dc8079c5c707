/** The Some/None datatype used for the page's optional elements (an absent
    navigation button, a slide without a heading) and for the outcomes where
    the script would throw instead of producing a value. */
module Wrappers {

  datatype Option<+T> = None | Some(value: T)
}
