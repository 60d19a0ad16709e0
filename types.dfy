/** Failure-carrying wrappers used by every command: the Rust code returns
    `Option<T>` for absent values and `Result<T, String>` for commands that fail. */
module Types {

  datatype Option<+T> = None | Some(value: T)

  /** A command's outcome; the error is the message string handed back to the UI. */
  datatype Result<+T> = Ok(value: T) | Err(message: string)

  /** `opt.unwrap_or(default)` */
  function GetOr<T>(opt: Option<T>, default: T): T
  {
    match opt
    case Some(v) => v
    case None => default
  }
}
