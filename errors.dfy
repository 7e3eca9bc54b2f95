/** The four exceptions ros_loader raises, kept as tags with their arguments
    (the human-readable messages and the wrapped causes are diagnostic only). */
module Errors {

  datatype LoadError =
    | InvalidTypeString(typestring: string)
    | InvalidModule(modname: string, subname: string)
    | InvalidActionInterface(classname: string)
    | InvalidClass(modname: string, subname: string, classname: string)

  /** A value, or the exception that was raised instead of returning it. */
  datatype Result<+T> = Ok(value: T) | Err(error: LoadError)

  /** A cache lookup: a value, or Python's None. */
  datatype Option<+T> = None | Some(value: T)
}
