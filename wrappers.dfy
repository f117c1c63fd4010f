/** Option and Result, the two failure-carrying types the Java backend's model uses. */
module Wrappers {

  datatype Option<+T> = None | Some(value: T)

  /** Why a build step does not complete. `SourceOutsideRoot` stands for the panic
      of `get_class_name` on a path that holds neither `src/` nor `src-gen/`;
      `MissingMainClass` for the "Can't find main class" exit. */
  datatype Error = SourceOutsideRoot | MissingMainClass

  datatype Result<+T> = Ok(value: T) | Err(error: Error)
}
