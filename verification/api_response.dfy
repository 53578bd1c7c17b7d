/** The JSON envelope every controller answer carries (`utils.ApiResponse`).

    Absent Java fields (`null`) are `None`; leaving them out of the JSON text
    (`@JsonInclude(NON_NULL)`) is serialisation and is not modelled. The
    constructor is private, so the five factories below are the only way to
    build an envelope.
 */
module ApiResponses {
  import opened Wrappers

  datatype ApiResponse<+T> = ApiResponse(
    success: bool,
    message: Option<string>,
    data: Option<T>,
    error: Option<string>)

  /** What every success factory promises: the flag is set and no error. */
  predicate SuccessShaped<T>(r: ApiResponse<T>) {
    r.success && r.error.None?
  }

  /** What every error factory promises: the flag is clear, there is an
      error text, and no message. */
  predicate ErrorShaped<T>(r: ApiResponse<T>) {
    !r.success && r.message.None? && r.error.Some?
  }

  /** `success(data)`: the fixed message "Success". */
  function Success<T>(data: T): (r: ApiResponse<T>)
    ensures SuccessShaped(r)
    ensures r.message == Some("Success") && r.data == Some(data)
  {
    ApiResponse(true, Some("Success"), Some(data), None)
  }

  /** `success(message, data)`. */
  function SuccessWith<T>(message: string, data: T): (r: ApiResponse<T>)
    ensures SuccessShaped(r)
    ensures r.message == Some(message) && r.data == Some(data)
  {
    ApiResponse(true, Some(message), Some(data), None)
  }

  /** `success(message)`: a message and no data. A `String` argument picks
      this overload over `success(T data)`, being the more specific one. */
  function SuccessMessage<T>(message: string): (r: ApiResponse<T>)
    ensures SuccessShaped(r)
    ensures r.message == Some(message) && r.data.None?
  {
    ApiResponse(true, Some(message), None, None)
  }

  /** `error(errorMessage)`: the text goes in `error`, not in `message`. */
  function Error<T>(errorMessage: string): (r: ApiResponse<T>)
    ensures ErrorShaped(r)
    ensures r.error == Some(errorMessage) && r.data.None?
  {
    ApiResponse(false, None, None, Some(errorMessage))
  }

  /** `error(errorMessage, data)`: as `error`, keeping the data. */
  function ErrorWith<T>(errorMessage: string, data: T): (r: ApiResponse<T>)
    ensures ErrorShaped(r)
    ensures r.error == Some(errorMessage) && r.data == Some(data)
  {
    ApiResponse(false, None, Some(data), Some(errorMessage))
  }

  /** The two shapes exclude each other, and the `success` flag alone tells
      which one an envelope has. */
  lemma ShapesAreExclusive<T>(r: ApiResponse<T>)
    requires SuccessShaped(r) || ErrorShaped(r)
    ensures SuccessShaped(r) <==> r.success
    ensures ErrorShaped(r) <==> !r.success
  {
  }

  /** A reader of an error envelope finds the text in `error`; `message` is
      always absent, whatever text was given. */
  lemma ErrorTextIsNotInMessage<T>(text: string, data: T)
    ensures Error<T>(text).message.None? && ErrorWith(text, data).message.None?
    ensures Error<T>(text).error == Some(text) && ErrorWith(text, data).error == Some(text)
  {
  }
}
