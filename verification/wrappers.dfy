/** The optional value used for JavaScript's `undefined`-or-value results
    (`Array.prototype.find`, a missing request field, a missing header). */
module Wrappers {

  datatype Option<+T> = None | Some(value: T)

}
