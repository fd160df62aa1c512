/**
  A value, or the lack of one: null pointers, empty table entries, searches that find nothing. And
  a result, or none because the call did not return.
*/
module Options {

  datatype Option<T> = None | Some(value: T)

  /** In lwIP as configured here LWIP_ASSERT and LWIP_ERROR both panic when their test fails. */
  datatype Outcome<T> = Returned(value: T) | Panicked
}
