/**
 * The presigned-URL function: `key` is a comma-separated list of object keys,
 * `method` says whether the URLs are for downloading ("GET") or uploading
 * ("PUT"). The reply lists one signed URL per key, in the order given.
 */
module PresignedUrl {
  import opened Wrappers
  import opened Strings
  import opened Http

  const InvalidMethod := "Missing or invalid method parameter. Accepts 'GET' or 'PUT'"

  /**
   * The handler. Reading `key.split` of an absent parameter set or an absent
   * `key` fails with a TypeError; `bucket` is the function's bucket and `sign`
   * stands for `getSignedUrl`.
   */
  function Handle(event: ApiEvent, bucket: string, sign: Command -> string): (r: Result<Response, Failure>)
    ensures r.Err? <==> event.queryStringParameters.None? || event.queryStringParameters.value.key.None?
    ensures r.Err? ==> r.error == TypeError
    ensures r.Ok? ==> r.value.cors && (r.value.statusCode == 200 || r.value.statusCode == 400)
    ensures r.Ok? ==> (r.value.statusCode == 200 <==> IsSupportedMethod(event.queryStringParameters.value.requestMethod))
    ensures r.Ok? && r.value.statusCode == 400 ==> r.value.body == ErrorMessage(InvalidMethod)
    ensures r.Ok? && r.value.statusCode == 200 ==>
      var params := event.queryStringParameters.value;
      var keys := Split(params.key.value, ',');
      && r.value.body.SignedUrls?
      && |r.value.body.urls| == |keys|
      && forall i :: 0 <= i < |keys| ==>
        r.value.body.urls[i] == SignedUrl(keys[i], sign(CommandFor(params.requestMethod.value, bucket, keys[i])))
  {
    match event.queryStringParameters
    case None => Err(TypeError)
    case Some(params) =>
      match params.key
      case None => Err(TypeError)
      case Some(key) =>
        var keys := Split(key, ',');
        match CheckParams(true, params.requestMethod, InvalidMethod)
        case Some(invalid) => Ok(invalid)
        case None => Ok(Reply(200, SignedUrls(SignAll(keys, params.requestMethod.value, bucket, sign))))
  }

  /** A request for several keys joined with commas gets those keys back, each with its URL, in order. */
  lemma RequestedKeysAnswered(keys: seq<string>, requestMethod: string, bucket: string, sign: Command -> string)
    requires |keys| >= 1 && forall i :: 0 <= i < |keys| ==> ',' !in keys[i]
    requires requestMethod == "GET" || requestMethod == "PUT"
    ensures var event := ApiEvent(Some(QueryParams(Some(requestMethod), Some(Join(keys, ",")), None)), None);
      Handle(event, bucket, sign) == Ok(Reply(200, SignedUrls(SignAll(keys, requestMethod, bucket, sign))))
  {
    SplitJoin(keys, ',');
  }

  /** "get" or "Put" are not methods: the comparison is case-sensitive. */
  lemma LowerCaseMethodRejected(key: string, bucket: string, sign: Command -> string)
    ensures var event := ApiEvent(Some(QueryParams(Some("get"), Some(key), None)), None);
      Handle(event, bucket, sign) == Ok(Reply(400, ErrorMessage(InvalidMethod)))
  {
    assert !IsSupportedMethod(Some("get"));
  }

  /** An empty `key` is one empty key, not a missing one: the reply carries a URL for the key "". */
  lemma EmptyKeyIsOneKey(bucket: string, sign: Command -> string)
    ensures var event := ApiEvent(Some(QueryParams(Some("GET"), Some(""), None)), None);
      Handle(event, bucket, sign) == Ok(Reply(200, SignedUrls([SignedUrl("", sign(GetObject(bucket, "")))])))
  {
    var event := ApiEvent(Some(QueryParams(Some("GET"), Some(""), None)), None);
    assert Split("", ',') == [""];
    assert IsSupportedMethod(Some("GET"));
    var urls := SignAll([""], "GET", bucket, sign);
    assert urls == [SignedUrl("", sign(GetObject(bucket, "")))] by {
      assert urls[0] == SignedUrl("", sign(CommandFor("GET", bucket, "")));
    }
    assert Handle(event, bucket, sign) == Ok(Reply(200, SignedUrls(urls)));
  }
}
