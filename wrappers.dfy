/** The optional value used for the OCR service's first text annotation and for
    the CSV download that is offered or not. */
module Wrappers {

  datatype Option<+T> = None | Some(value: T)
}
