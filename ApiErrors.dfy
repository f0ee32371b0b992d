/** The outcomes a request handler produces instead of a response body. */
module ApiErrors {
  /** `NotFoundException` and `BadRequestException` carry their message;
      a conversion failure (the converter's exception, or a converted value
      that is not positive) and the transfer service's `TransferException`
      pass through the handler. */
  datatype ApiError =
    | NotFound(message: string)
    | BadRequest(message: string)
    | ConversionFailed(message: string)
    | TransferFailed
}
