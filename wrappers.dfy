/** Option and Result values used for the error returns of the Lua entry points. */
module Wrappers {

  datatype Option<+T> = None | Some(value: T)

  /** The outcome of a Lua C function: a value, or the error that `luaL_error` raises. */
  datatype Result<+T> = Ok(value: T) | Err(error: string)
}
