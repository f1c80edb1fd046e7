/** Value types shared by every table and handler. */
module Values {

  datatype Option<T> = None | Some(value: T)

  /** A calendar day (a `DATE` column), as a day number so that dates are ordered. */
  type Date = int

  /** A `DATETIME` value; only ever stored and echoed, never inspected. */
  type Timestamp = string

  /** The JSON text of a block's content; opaque to the model. */
  type Content = string
}
