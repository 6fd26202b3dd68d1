/** Failure-carrying values shared by every module of the model: an optional
    value, the JavaScript errors the importer can raise, and a result that is
    either a value or one of those errors (a thrown exception). */
module Base {

  /** A value that may be absent (a missing key, `undefined`). */
  datatype Option<T> = None | Some(value: T)

  /** The exceptions the two importers can raise. Neither importer catches
      anything, so each of these ends the scan and reaches the caller. */
  datatype JsError =
    | TypeError(message: string)         // `undefined` used as an object, or a non-function called
    | ReferenceError(identifier: string) // an undeclared name is read
    | FsError(code: string)              // `fs.readdirSync` / `fs.statSync` failed

  /** Either a value or the exception that was thrown instead. */
  datatype Result<T> = Success(value: T) | Failure(error: JsError)
}
