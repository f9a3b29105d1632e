/** The optional value used for a detail-page fetch: `None` stands for a fetch
    that raised, `Some(text)` for the body of a page that came back. */
module Wrappers {

  datatype Option<+T> = None | Some(value: T)
}
