/** The Some/None datatype used by the parsers that invert the export formats. */
module Options {

  datatype Option<+T> = None | Some(value: T)
}
