/**
 * The errors a ledger call can end with. The source throws; the model returns them.
 */
module Errors {

  datatype Error =
      /** A rule of the service layer was broken (services/errors.ts `BusinessError`). */
    | BusinessError(message: string)
      /** The decimal library refused its input (a thrown `[DecimalError] …`). */
    | DecimalError(message: string)
      /** The repository or the storage engine failed (a plain thrown `Error`). */
    | StoreError(message: string)
  {
    /** The text of `error.message`. */
    function Message(): string {
      match this
      case BusinessError(m) => m
      case DecimalError(m) => m
      case StoreError(m) => m
    }
  }
}
