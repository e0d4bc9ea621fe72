/**
 * Option and Result values shared by the model, and the kinds of error the
 * variable registry raises.
 */
module Outcomes {

  datatype Option<+T> = None | Some(value: T)

  /** The exceptions of the registry, by kind. */
  datatype Error =
    | InvalidName      // the ValueError of sanitize_var_name
    | InvalidArgument  // options that disagree with the type, or an unsupported type tag
    | NotFound         // a Variable handle whose label resolves to no variable
    | InvalidValue     // the host refused a value assigned to the Value property

  datatype Result<+T> = Ok(value: T) | Err(error: Error)
}
