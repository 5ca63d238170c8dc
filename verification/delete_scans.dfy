/**
 * The delete-scans function: given a history code, it lists every object
 * under `<history code>/` and deletes them in one request. The two S3
 * answers are inputs of the model, and the handler reports the commands it
 * sent alongside its outcome.
 */
module DeleteScans {
  import opened Wrappers
  import opened Strings
  import opened Http

  const MissingHistoryCode := "Missing history_code parameter"
  const NotFound := "History code not found"

  /** The `Contents` of the listing: the keys of the objects found, if any were reported. */
  datatype ListResult = ListResult(contents: Option<seq<string>>)

  /** The `Deleted` entries of the delete answer, if reported. */
  datatype DeleteResult = DeleteResult(deleted: Option<seq<string>>)

  /** `checkParams`: an absent or empty history code is a 400. */
  function CheckParams(historyCode: Option<string>): (r: Option<Response>)
    ensures r.None? <==> historyCode.Some? && historyCode.value != ""
    ensures r.Some? ==> r.value == Reply(400, ErrorMessage(MissingHistoryCode))
  {
    if historyCode.None? || historyCode.value == "" then Some(Reply(400, ErrorMessage(MissingHistoryCode))) else None
  }

  /** The folder of a history: its code and a slash, so that "abc" does not also cover "abcd". */
  function Prefix(code: string): string {
    code + "/"
  }

  predicate StartsWith(s: string, prefix: string) {
    |prefix| <= |s| && s[..|prefix|] == prefix
  }

  function SuccessMessage(code: string, count: nat): string {
    "Sucessfully deleted all " + NatToString(count) + " scan images for " + code
  }

  /** The history code of a well-formed request. */
  predicate HasHistoryCode(event: ApiEvent) {
    && event.queryStringParameters.Some?
    && event.queryStringParameters.value.historyCode.Some?
    && event.queryStringParameters.value.historyCode.value != ""
  }

  /** The handler: its outcome and the S3 commands it sent, in order. */
  function Handle(event: ApiEvent, bucket: string, listed: ListResult, deleted: DeleteResult)
    : (r: (Result<Response, Failure>, seq<Command>))
    ensures event.queryStringParameters.None? ==> r == (Err(TypeError), [])
    ensures event.queryStringParameters.Some? && !HasHistoryCode(event) ==>
      r == (Ok(Reply(400, ErrorMessage(MissingHistoryCode))), [])
    ensures HasHistoryCode(event) ==>
      var code := event.queryStringParameters.value.historyCode.value;
      && |r.1| >= 1
      && r.1[0] == ListObjects(bucket, Prefix(code))
      && (listed.contents.None? || listed.contents.value == [] <==> |r.1| == 1)
      && (|r.1| == 1 ==> r.0 == Ok(Reply(404, ErrorMessage(NotFound))))
      && (|r.1| > 1 ==> r.1 == [ListObjects(bucket, Prefix(code)), DeleteObjects(bucket, listed.contents.value)])
      && (|r.1| > 1 && deleted.deleted.None? ==> r.0 == Err(TypeError))
      && (|r.1| > 1 && deleted.deleted.Some? ==>
        r.0 == Ok(Response(200, false, Message(SuccessMessage(code, |deleted.deleted.value|)))))
  {
    match event.queryStringParameters
    case None => (Err(TypeError), [])
    case Some(params) =>
      match CheckParams(params.historyCode)
      case Some(invalid) => (Ok(invalid), [])
      case None =>
        var code := params.historyCode.value;
        var list := ListObjects(bucket, Prefix(code));
        if listed.contents.None? || |listed.contents.value| == 0 then
          (Ok(Reply(404, ErrorMessage(NotFound))), [list])
        else
          var objects := listed.contents.value;
          var remove := DeleteObjects(bucket, objects);
          match deleted.deleted
          case None => (Err(TypeError), [list, remove])
          case Some(gone) => (Ok(Response(200, false, Message(SuccessMessage(code, |gone|)))), [list, remove])
  }

  /** Two different codes without a slash have folders no key can share. */
  lemma PrefixesDisjoint(a: string, b: string, key: string)
    requires a != b && '/' !in a && '/' !in b
    requires StartsWith(key, Prefix(a))
    ensures !StartsWith(key, Prefix(b))
  {
    assert key[..|a| + 1] == Prefix(a);
    if |a| < |b| {
      assert key[|a|] == '/' && b[|a|] != '/';
      assert |key| < |b| + 1 || key[|a|] != Prefix(b)[|a|];
    } else if |b| < |a| {
      assert key[|b|] == a[|b|] && a[|b|] != '/';
      assert |key| < |b| + 1 || key[|b|] != Prefix(b)[|b|];
    } else {
      assert exists j :: 0 <= j < |a| && a[j] != b[j];
      var j :| 0 <= j < |a| && a[j] != b[j];
      assert key[j] == a[j];
      assert key[j] != Prefix(b)[j];
    }
  }

  /**
   * When the listing honours the prefix, every key the handler deletes lies in
   * the requested history's folder, and so in no other history's.
   */
  lemma DeletesOnlyOwnScans(event: ApiEvent, bucket: string, listed: ListResult, deleted: DeleteResult, other: string)
    requires HasHistoryCode(event)
    requires listed.contents.Some?
    requires forall k :: 0 <= k < |listed.contents.value| ==>
      StartsWith(listed.contents.value[k], Prefix(event.queryStringParameters.value.historyCode.value))
    requires '/' !in event.queryStringParameters.value.historyCode.value
    requires '/' !in other && other != event.queryStringParameters.value.historyCode.value
    ensures forall c :: c in Handle(event, bucket, listed, deleted).1 && c.DeleteObjects? ==>
      forall k :: 0 <= k < |c.keys| ==> !StartsWith(c.keys[k], Prefix(other))
  {
    var code := event.queryStringParameters.value.historyCode.value;
    forall k | 0 <= k < |listed.contents.value|
      ensures !StartsWith(listed.contents.value[k], Prefix(other))
    {
      PrefixesDisjoint(code, other, listed.contents.value[k]);
    }
  }

  /** The success message reports the number of objects deleted, in decimal. */
  lemma SuccessMessageCount(code: string, count: nat)
    ensures var m := SuccessMessage(code, count);
      var digits := FirstDigits(m);
      digits.Some? && DigitsValue(digits.value) == count
  {
    var pre := "Sucessfully deleted all ";
    var post := " scan images for " + code;
    FirstDigitsBetween(pre, NatToString(count), post);
    assert SuccessMessage(code, count) == pre + NatToString(count) + post;
    NatToStringValue(count);
  }
}
