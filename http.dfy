/** The JSON responses the route handlers return through `NextResponse.json`. */
module Http {

  /** A response body: the data of a success, or `{ error: message }`. */
  datatype Payload<T> = Data(value: T) | Error(message: string)

  datatype Response<T> = Response(status: int, body: Payload<T>)

  const Unauthorized := "Unauthorized"
}
