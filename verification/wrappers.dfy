/** The optional-value datatype shared by the whole model: it stands for the
    source's `undefined`/`null` results (a missing map entry, a gem reference
    that was cleared, a regular expression that did not match). */
module Wrappers {

  datatype Option<+T> = None | Some(value: T)
}
