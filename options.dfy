/** A value that may be absent: pandas' NaN / NaT / None in a column. */
module Options {

  datatype Option<+T> = None | Some(value: T)
}
