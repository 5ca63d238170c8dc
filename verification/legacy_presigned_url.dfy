/**
 * The older presigned-URL function deployed with the scan-page stack. Keys
 * arrive as repeated `key` parameters rather than one comma-separated value,
 * and the method message does not list the accepted methods.
 */
module LegacyPresignedUrl {
  import opened Wrappers
  import opened Http
  import PresignedUrl
  import Strings

  const InvalidMethod := "Missing or invalid method parameter"

  /** The query parameters both handlers read first; either set being absent is a TypeError. */
  predicate HasParameterSets(event: ApiEvent) {
    event.queryStringParameters.Some? && event.multiValueQueryStringParameters.Some?
  }

  /**
   * The upload branch as written: its callback returns `{key, url}`, but the
   * name `url` is bound nowhere (the signed URL is held in `uploadURL`), so the
   * first key's callback throws a ReferenceError and `Promise.all` rejects.
   * Only an empty key list gets through.
   */
  function PutUrlsAsWritten(keys: seq<string>): (r: Result<seq<SignedUrl>, Failure>)
    ensures r.Ok? <==> keys == []
    ensures r.Ok? ==> r.value == []
    ensures r.Err? ==> r.error == ReferenceError
  {
    if |keys| == 0 then Ok([]) else Err(ReferenceError)
  }

  /** The handler as written. */
  function Handle(event: ApiEvent, bucket: string, sign: Command -> string): (r: Result<Response, Failure>)
    ensures r == Err(TypeError) <==> !HasParameterSets(event)
    ensures r.Err? ==> r == Err(TypeError) || r == Err(ReferenceError)
    ensures HasParameterSets(event) && event.multiValueQueryStringParameters.value.key.None? ==>
      r == Ok(Reply(400, ErrorMessage(MissingKey)))
    ensures (HasParameterSets(event) && event.multiValueQueryStringParameters.value.key.Some?
             && !IsSupportedMethod(event.queryStringParameters.value.requestMethod)) ==>
      r == Ok(Reply(400, ErrorMessage(InvalidMethod)))
    ensures (HasParameterSets(event) && event.multiValueQueryStringParameters.value.key.Some?
             && event.queryStringParameters.value.requestMethod == Some("GET")) ==>
      r == Ok(Reply(200, SignedUrls(SignAll(event.multiValueQueryStringParameters.value.key.value, "GET", bucket, sign))))
    ensures r.Ok? && r.value.statusCode != 200 ==> r.value.statusCode == 400
    ensures r == Err(ReferenceError) <==>
      && HasParameterSets(event)
      && event.multiValueQueryStringParameters.value.key.Some?
      && event.queryStringParameters.value.requestMethod == Some("PUT")
      && |event.multiValueQueryStringParameters.value.key.value| > 0
    ensures r.Ok? ==> r.value.cors && (r.value.statusCode == 200 <==>
      event.multiValueQueryStringParameters.value.key.Some?
      && IsSupportedMethod(event.queryStringParameters.value.requestMethod))
    ensures r.Ok? && r.value.statusCode == 200 ==>
      var keys := event.multiValueQueryStringParameters.value.key.value;
      var verb := event.queryStringParameters.value.requestMethod.value;
      || (verb == "GET" && r.value.body == SignedUrls(SignAll(keys, "GET", bucket, sign)))
      || (verb == "PUT" && keys == [] && r.value.body == SignedUrls([]))
  {
    match event.queryStringParameters
    case None => Err(TypeError)
    case Some(params) =>
      match event.multiValueQueryStringParameters
      case None => Err(TypeError)
      case Some(multi) =>
        match CheckParams(multi.key.Some?, params.requestMethod, InvalidMethod)
        case Some(invalid) => Ok(invalid)
        case None =>
          var keys := multi.key.value;
          if params.requestMethod.value == "GET" then
            Ok(Reply(200, SignedUrls(SignAll(keys, "GET", bucket, sign))))
          else
            match PutUrlsAsWritten(keys)
            case Err(e) => Err(e)
            case Ok(urls) => Ok(Reply(200, SignedUrls(urls)))
  }

  /** The handler as evidently intended: the upload branch returns the URL it signed. */
  function HandleCorrected(event: ApiEvent, bucket: string, sign: Command -> string): (r: Result<Response, Failure>)
    ensures r.Err? <==> !HasParameterSets(event)
    ensures r.Err? ==> r.error == TypeError
    ensures HasParameterSets(event) && event.multiValueQueryStringParameters.value.key.None? ==>
      r == Ok(Reply(400, ErrorMessage(MissingKey)))
    ensures r.Ok? ==> (r.value.statusCode == 200 <==>
      event.multiValueQueryStringParameters.value.key.Some?
      && IsSupportedMethod(event.queryStringParameters.value.requestMethod))
    ensures r.Ok? && r.value.statusCode == 200 ==>
      var keys := event.multiValueQueryStringParameters.value.key.value;
      var verb := event.queryStringParameters.value.requestMethod.value;
      && r.value.body.SignedUrls?
      && |r.value.body.urls| == |keys|
      && forall i :: 0 <= i < |keys| ==>
        r.value.body.urls[i] == SignedUrl(keys[i], sign(CommandFor(verb, bucket, keys[i])))
  {
    match event.queryStringParameters
    case None => Err(TypeError)
    case Some(params) =>
      match event.multiValueQueryStringParameters
      case None => Err(TypeError)
      case Some(multi) =>
        match CheckParams(multi.key.Some?, params.requestMethod, InvalidMethod)
        case Some(invalid) => Ok(invalid)
        case None => Ok(Reply(200, SignedUrls(SignAll(multi.key.value, params.requestMethod.value, bucket, sign))))
  }

  /** The request the upload path of the app sends, for one key. */
  function UploadRequest(key: string): ApiEvent {
    ApiEvent(Some(QueryParams(Some("PUT"), Some(key), None)), Some(MultiValueParams(Some([key]))))
  }

  /** As written, a one-key upload request fails; corrected, it gets its signed upload URL. */
  lemma UploadRequestFails(key: string, bucket: string, sign: Command -> string)
    ensures Handle(UploadRequest(key), bucket, sign) == Err(ReferenceError)
    ensures HandleCorrected(UploadRequest(key), bucket, sign)
      == Ok(Reply(200, SignedUrls([SignedUrl(key, sign(PutObject(bucket, key)))])))
  {
    var urls := SignAll([key], "PUT", bucket, sign);
    assert urls == [SignedUrl(key, sign(PutObject(bucket, key)))] by {
      assert urls[0] == SignedUrl(key, sign(CommandFor("PUT", bucket, key)));
    }
  }

  /** Both versions agree on downloads. */
  lemma DownloadsUnchanged(event: ApiEvent, bucket: string, sign: Command -> string)
    requires HasParameterSets(event) && event.queryStringParameters.value.requestMethod == Some("GET")
    ensures Handle(event, bucket, sign) == HandleCorrected(event, bucket, sign)
  {
  }

  /**
   * On a supported method, the corrected handler answers repeated `key`
   * parameters exactly as the newer function answers the same keys joined
   * with commas.
   */
  lemma CorrectedMatchesCommaSeparated(keys: seq<string>, verb: string, bucket: string, sign: Command -> string)
    requires |keys| >= 1 && forall i :: 0 <= i < |keys| ==> ',' !in keys[i]
    requires verb == "GET" || verb == "PUT"
    ensures
      var multi := ApiEvent(Some(QueryParams(Some(verb), None, None)), Some(MultiValueParams(Some(keys))));
      var joined := ApiEvent(Some(QueryParams(Some(verb), Some(Strings.Join(keys, ",")), None)), None);
      HandleCorrected(multi, bucket, sign) == PresignedUrl.Handle(joined, bucket, sign)
  {
    PresignedUrl.RequestedKeysAnswered(keys, verb, bucket, sign);
  }
}
