/** The HTTP responses the handlers of app.py produce, as values. */
module Http {

  /** One byte of a stored payload. */
  newtype byte = x: int | 0 <= x < 256

  /**
   * A JSON response body.
   * - ErrorBody(e): `{"error": true, "exception": e}`
   * - DetailBody(d): FastAPI's body for a raised HTTPException, `{"detail": d}`
   * - FileIdBody(f): `{"error": false, "file_id": f}`
   */
  datatype JsonBody =
    | ErrorBody(exception: string)
    | DetailBody(detail: string)
    | FileIdBody(fileId: string)

  /**
   * A response. FileResponse carries the payload, the media type and the extra
   * headers; `streamed` tells a StreamingResponse (view) from a plain Response
   * (download). Both are sent with status 200.
   */
  datatype Response =
    | JsonResponse(status: int, body: JsonBody)
    | FileResponse(streamed: bool, data: seq<byte>, mediaType: string, headers: map<string, string>)
  {
    function Status(): int {
      if JsonResponse? then status else 200
    }
  }
}
