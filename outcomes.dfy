/** Failure-carrying values used across the model. */
module Outcomes {

  datatype Option<+T> = None | Some(value: T)

  datatype Result<+T, +E> = Success(value: T) | Failure(error: E)

  /** The exceptions of the modelled code. */
  datatype Fault =
    /** DevExpress.XtraReports.Web.ClientControls.FaultException, which GetData raises towards
        the designer user. */
    | FaultException(message: string)
    /** System.ArgumentException, the failure ToDictionary would raise on a repeated key;
        GetUrls is proved never to raise it. */
    | ArgumentException(message: string)
}
