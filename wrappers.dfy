/** The optional-value datatype used for the converter's "may be absent" values
    (an undeclared CRS, a read that produced no dataset, a step that failed). */
module Wrappers {

  datatype Option<+T> = None | Some(value: T)

}
