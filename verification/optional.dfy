/**
 Results that may be missing: a page normalisation that did not succeed, or a
 status line that does not parse.
 */
module Optional {

  datatype Option<+T> = None | Some(value: T)
}
