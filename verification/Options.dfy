/** The optional value that SQL NULLs, absent rows and missing RPC answers become. */
module Options {

  datatype Option<+T> = None | Some(value: T)
}
