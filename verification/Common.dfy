/** Values shared by every component: optional values and the status codes of the C API. */
module Common {

  datatype Option<+T> = None | Some(value: T)

  /** The status codes of include/mbpf.h. */
  datatype Status =
    | Success
    | InvalidArg
    | DupQualifier
    | QualifierNotFound
    | ParseError
    | TypeMismatch
    | CodegenError
    | VmRuntime
    | VerificationError
}
