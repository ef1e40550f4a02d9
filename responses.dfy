/**
 * The response envelope both handlers return: a status code, a body and a
 * header map.  The body is kept as a value, not as JSON text.
 */
module Responses {
  import opened Catalog

  /** 200 OK, section 15.3.1 of RFC 9110. */
  const StatusOk: int := 200
  /** 400 Bad Request, section 15.5.1 of RFC 9110. */
  const StatusBadRequest: int := 400
  /** 404 Not Found, section 15.5.5 of RFC 9110. */
  const StatusNotFound: int := 404

  type Headers = map<string, string>

  /** What the handlers serialise as the JSON body. */
  datatype Body =
    | Message(message: string)        // {"message": ...}
    | Book(record: Record)            // the found item itself
    | Translated(translatedText: string)  // {"translatedText": ...}

  datatype Response = Response(statusCode: int, body: Body, headers: Headers)
}
