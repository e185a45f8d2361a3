/** The optional value used for C's nullable pointers (a FILE* that may be
    NULL, a callback that may be absent, an fopen that may fail). */
module Wrappers {

  datatype Option<+T> = None | Some(value: T)

}
