/** The conventional Some/None datatype, used where the source yields `null`
    (a failed regular-expression match) or an invalid value (an unparsable date). */
module Optional {

  datatype Option<+T> = None | Some(value: T)
}
