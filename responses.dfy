/**
 * The proxy-integration response built by `response`
 * (ImageProcessorFunc/lambda_function.py:30-59).
 */
module Responses {
  import opened Wrappers
  import opened Strings
  import opened Store

  /**
   * What `response` is given: an error dictionary `{'errorMessage': ...}`, or
   * the local file holding an image, represented by its contents.
   */
  datatype Payload = ErrorDict(errorMessage: string) | ImageFile(content: Bytes)

  datatype ContentType = ApplicationJson | GuessedFrom(filename: string)

  /**
   * The response dictionary. `body` stands for its serialised form: the JSON
   * text of the error dictionary, or the base64 text of the image's bytes.
   */
  datatype Response = Response(isBase64Encoded: bool, statusCode: string, body: Payload, contentType: ContentType)

  /** `response(body, status_code, filename)`. */
  function MakeResponse(payload: Payload, statusCode: int, filename: string): (r: Response)
    ensures r.body == payload
    ensures r.isBase64Encoded <==> payload.ImageFile?
    ensures r.statusCode == Decimal(statusCode)
    ensures WithinDigitLimit(statusCode) ==> ParseInt(r.statusCode) == Some(statusCode)
    ensures payload.ErrorDict? ==> r.contentType == ApplicationJson
    ensures payload.ImageFile? ==> r.contentType == GuessedFrom(filename)
  {
    assert WithinDigitLimit(statusCode) ==> ParseInt(Decimal(statusCode)) == Some(statusCode) by {
      if WithinDigitLimit(statusCode) {
        ParseDecimal(statusCode);
      }
    }
    match payload
    case ErrorDict(_) => Response(false, Decimal(statusCode), payload, ApplicationJson)
    case ImageFile(_) => Response(true, Decimal(statusCode), payload, GuessedFrom(filename))
  }
}
