/**
 * What the API Gateway Lambda handlers receive and return: query parameters,
 * responses with a JSON body, the S3 commands they issue, and the ways a
 * handler can fail.
 */
module Http {
  import opened Wrappers

  /** A handler that does not return: an `Error` it throws, or a TypeError / ReferenceError raised by the runtime. */
  datatype Failure = Thrown(message: string) | TypeError | ReferenceError

  /** `event.queryStringParameters`: the last value of each parameter. */
  datatype QueryParams = QueryParams(requestMethod: Option<string>, key: Option<string>, historyCode: Option<string>)

  /** `event.multiValueQueryStringParameters`: every value of each parameter, in order. */
  datatype MultiValueParams = MultiValueParams(key: Option<seq<string>>)

  datatype ApiEvent = ApiEvent(
    queryStringParameters: Option<QueryParams>,
    multiValueQueryStringParameters: Option<MultiValueParams>)

  datatype SignedUrl = SignedUrl(key: string, url: string)

  /** The JSON body: an `{error}` object, the list of signed URLs, or a bare string. */
  datatype Body = ErrorMessage(error: string) | SignedUrls(urls: seq<SignedUrl>) | Message(text: string)

  /**
   * A response. `cors` stands for the two header fields every error response
   * and the presigned-URL responses carry: `isBase64Encoded: false` and
   * `Access-Control-Allow-Origin: *`.
   */
  datatype Response = Response(statusCode: nat, cors: bool, body: Body)

  function Reply(statusCode: nat, body: Body): Response {
    Response(statusCode, true, body)
  }

  /** An S3 command, with the bucket named by the function's environment. */
  datatype Command =
    | GetObject(bucket: string, key: string)
    | PutObject(bucket: string, key: string)
    | ListObjects(bucket: string, prefix: string)
    | DeleteObjects(bucket: string, keys: seq<string>)

  const MissingKey := "Missing key parameter"

  /** The only methods a presigned URL can be requested for, compared case-sensitively. */
  predicate IsSupportedMethod(requestMethod: Option<string>) {
    requestMethod == Some("GET") || requestMethod == Some("PUT")
  }

  /**
   * `checkParams` of the presigned-URL functions: a 400 when the keys are
   * missing, else a 400 when the method is missing or unsupported, else
   * nothing (the handler goes on). The two functions differ only in the
   * method message.
   */
  function CheckParams(hasKeys: bool, requestMethod: Option<string>, methodError: string): (r: Option<Response>)
    ensures r.None? <==> hasKeys && IsSupportedMethod(requestMethod)
    ensures !hasKeys ==> r == Some(Reply(400, ErrorMessage(MissingKey)))
    ensures hasKeys && !IsSupportedMethod(requestMethod) ==> r == Some(Reply(400, ErrorMessage(methodError)))
    ensures r.Some? ==> r.value.statusCode == 400 && r.value.cors
  {
    if !hasKeys then Some(Reply(400, ErrorMessage(MissingKey)))
    else if requestMethod.None? || requestMethod.value == "" || (requestMethod.value != "PUT" && requestMethod.value != "GET") then
      Some(Reply(400, ErrorMessage(methodError)))
    else None
  }

  /** The command a presigned URL is requested for: a download for "GET", an upload otherwise. */
  function CommandFor(requestMethod: string, bucket: string, key: string): Command {
    if requestMethod == "GET" then GetObject(bucket, key) else PutObject(bucket, key)
  }

  /**
   * The `keys.map(...)` under `Promise.all`: one signed URL per key, in the
   * order of the keys. `sign` stands for `getSignedUrl` on a command.
   */
  function SignAll(keys: seq<string>, requestMethod: string, bucket: string, sign: Command -> string): (r: seq<SignedUrl>)
    ensures |r| == |keys|
    ensures forall i :: 0 <= i < |keys| ==>
      r[i] == SignedUrl(keys[i], sign(CommandFor(requestMethod, bucket, keys[i])))
  {
    if |keys| == 0 then []
    else [SignedUrl(keys[0], sign(CommandFor(requestMethod, bucket, keys[0])))] + SignAll(keys[1..], requestMethod, bucket, sign)
  }
}
