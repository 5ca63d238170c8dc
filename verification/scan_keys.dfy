/**
 * The S3 object keys of scanned pages. The scanner uploads page `n` of a
 * history under `<history code>/page<n>.jpg`; three versions of the
 * scan-page handler take such a key apart again (`getS3ObjectDetails`) and
 * build the key of the JSON file they write next to it.
 */
module ScanKeys {
  import opened Wrappers
  import opened Strings
  import NodePath
  import opened Http

  /** The parts of an S3 notification record the handlers read. */
  datatype S3Record = S3Record(bucket: string, key: string)

  datatype S3Event = S3Event(records: seq<S3Record>)

  const NoRecord := "No record in event"
  const NoHistoryCodeOrFileName := "No history_code or filename in event key"
  const BadFileName := "File name doesn't match required format, eg. 'page1.jpg'"

  /** What the two TypeScript handlers return. */
  datatype Details = Details(bucket: string, key: string, historyCode: string, fileName: string, pageNumber: string)

  /** The same, with the directory part the basename/dirname version also keeps. */
  datatype PathDetails = PathDetails(
    bucket: string,
    key: string,
    dirName: string,
    historyCode: string,
    fileName: string,
    pageNumber: string)

  predicate AllSlashes(s: string) {
    forall i :: 0 <= i < |s| ==> s[i] == '/'
  }

  predicate HasDigit(s: string) {
    exists i :: 0 <= i < |s| && IsDigit(s[i])
  }

  // ------------------------------------------------------------ the key the scanner writes

  /** The file name of scanned page `n`. */
  function PageFile(n: nat): string {
    "page" + NatToString(n) + ".jpg"
  }

  /** The upload key of page `n` of the history `code`. */
  function ScannerKey(code: string, n: nat): string {
    code + "/" + PageFile(n)
  }

  /** The page number read back from a page file name is the decimal text of the page. */
  lemma PageFileDigits(n: nat)
    ensures FirstDigits(PageFile(n)) == Some(NatToString(n))
    ensures '/' !in PageFile(n) && |PageFile(n)| > 0
  {
    var pre, d, post := "page", NatToString(n), ".jpg";
    assert PageFile(n) == pre + d + post;
    assert forall i :: 0 <= i < |pre| ==> !IsDigit(pre[i]);
    assert !IsDigit(post[0]);
    FirstDigitsBetween(pre, d, post);
    assert '/' !in d by {
      forall i | 0 <= i < |d| ensures d[i] != '/' {
        assert IsDigit(d[i]);
      }
    }
    assert '/' !in pre && '/' !in post;
  }

  // ------------------------------------------------------------ basename / dirname version (SAM stack)

  /**
   * `getS3ObjectDetails` of the SAM stack: the file name is the basename of the
   * key, the history code the basename of its dirname, the page number the
   * first digit run of the file name.
   */
  function PathObjectDetails(event: S3Event): (r: Result<PathDetails, Failure>)
    ensures |event.records| == 0 <==> r == Err(Thrown(NoRecord))
    ensures r == Err(Thrown(NoHistoryCodeOrFileName)) <==>
      |event.records| > 0
      && (AllSlashes(event.records[0].key) || AllSlashes(NodePath.Dirname(event.records[0].key)))
    ensures r == Err(Thrown(BadFileName)) <==>
      && |event.records| > 0
      && !AllSlashes(event.records[0].key)
      && !AllSlashes(NodePath.Dirname(event.records[0].key))
      && !HasDigit(NodePath.Basename(event.records[0].key))
    ensures r.Ok? <==>
      && |event.records| > 0
      && !AllSlashes(event.records[0].key)
      && !AllSlashes(NodePath.Dirname(event.records[0].key))
      && HasDigit(NodePath.Basename(event.records[0].key))
    ensures r.Ok? ==>
      && r.value.bucket == event.records[0].bucket
      && r.value.key == event.records[0].key
      && r.value.dirName == NodePath.Dirname(r.value.key)
      && r.value.fileName == NodePath.Basename(r.value.key)
      && r.value.historyCode == NodePath.Basename(r.value.dirName)
      && (exists s: nat :: NodePath.LastSegmentAt(r.value.key, r.value.fileName, s))
      && (exists s: nat :: NodePath.LastSegmentAt(r.value.dirName, r.value.historyCode, s))
      && r.value.historyCode != "" && '/' !in r.value.historyCode
      && r.value.fileName != "" && '/' !in r.value.fileName
      && |r.value.pageNumber| > 0 && IsAllDigits(r.value.pageNumber)
      && FirstDigits(r.value.fileName) == Some(r.value.pageNumber)
  {
    if |event.records| == 0 then Err(Thrown(NoRecord))
    else
      var record := event.records[0];
      var fileName := NodePath.Basename(record.key);
      var dirName := NodePath.Dirname(record.key);
      var historyCode := NodePath.Basename(dirName);
      if historyCode == "" || fileName == "" then Err(Thrown(NoHistoryCodeOrFileName))
      else
        match FirstDigits(fileName)
        case None => Err(Thrown(BadFileName))
        case Some(pageNumber) =>
          Ok(PathDetails(record.bucket, record.key, dirName, historyCode, fileName, pageNumber))
  }

  /** The key the extracted tables are saved under. */
  function PathJsonKey(d: PathDetails): string {
    d.dirName + "/page" + d.pageNumber + ".json"
  }

  /** The key the raw Textract response is saved under. */
  function PathTextractKey(d: PathDetails): string {
    d.dirName + "/textract_page" + d.pageNumber + ".json"
  }

  /** `getS3ObjectDetails` on a key whose basename, dirname and page number are already known. */
  lemma PathObjectDetailsOf(bucket: string, key: string, rest: seq<S3Record>, dir: string, code: string, n: nat)
    requires NodePath.Basename(key) == PageFile(n)
    requires NodePath.Dirname(key) == dir && NodePath.Basename(dir) == code && code != ""
    ensures PathObjectDetails(S3Event([S3Record(bucket, key)] + rest))
      == Ok(PathDetails(bucket, key, dir, code, PageFile(n), NatToString(n)))
  {
    PageFileDigits(n);
    var event := S3Event([S3Record(bucket, key)] + rest);
    assert event.records[0] == S3Record(bucket, key);
  }

  /** A scanner key parses back into its history code and page, and the JSON files land beside the image. */
  lemma PathScannerRoundTrip(bucket: string, code: string, n: nat, rest: seq<S3Record>)
    requires code != "" && '/' !in code
    ensures var key := ScannerKey(code, n);
      && PathObjectDetails(S3Event([S3Record(bucket, key)] + rest))
        == Ok(PathDetails(bucket, key, code, code, PageFile(n), NatToString(n)))
      && PathJsonKey(PathDetails(bucket, key, code, code, PageFile(n), NatToString(n)))
        == code + "/page" + NatToString(n) + ".json"
      && PathTextractKey(PathDetails(bucket, key, code, code, PageFile(n), NatToString(n)))
        == code + "/textract_page" + NatToString(n) + ".json"
  {
    PageFileDigits(n);
    NodePath.BasenameOfJoin(code, PageFile(n));
    assert code != "/" by { assert code[0] != '/'; }
    NodePath.DirnameOfJoin(code, PageFile(n));
    NodePath.BasenameOfSegment(code);
    PathObjectDetailsOf(bucket, ScannerKey(code, n), rest, code, code, n);
  }

  /** A key with no directory part is accepted, with "." as its history code and its JSON written as "./page…". */
  lemma PathTopLevelKey(bucket: string, n: nat)
    ensures var d := PathDetails(bucket, PageFile(n), ".", ".", PageFile(n), NatToString(n));
      && PathObjectDetails(S3Event([S3Record(bucket, PageFile(n))])) == Ok(d)
      && PathJsonKey(d) == "./page" + NatToString(n) + ".json"
  {
    PageFileDigits(n);
    NodePath.BasenameOfSegment(PageFile(n));
    NodePath.DirnameOfSegment(PageFile(n));
    NodePath.BasenameOfSegment(".");
    PathObjectDetailsOf(bucket, PageFile(n), [], ".", ".", n);
    assert [S3Record(bucket, PageFile(n))] + [] == [S3Record(bucket, PageFile(n))];
    CurrentDirPage();
  }

  lemma EmptyCodePage()
    ensures "" + "/page" == "/page"
  {
  }

  lemma CurrentDirPage()
    ensures "." + "/page" == "./page"
  {
  }

  // ------------------------------------------------------------ split version (guarded)

  /**
   * `key` starts with `code`, a slash and `name`, and goes on, if at all, with
   * another slash.
   */
  predicate SegmentsAt(key: string, code: string, name: string) {
    && |code| + 1 + |name| <= |key|
    && key[..|code|] == code && key[|code|] == '/'
    && key[|code| + 1..|code| + 1 + |name|] == name
    && (|code| + 1 + |name| == |key| || key[|code| + 1 + |name|] == '/')
  }

  /** The first two segments of `key`, if it has two: what `key.split("/")` destructures into. */
  function FirstTwoSegments(key: string): (r: (string, Option<string>))
    ensures '/' !in r.0
    ensures r.1.None? <==> '/' !in key
    ensures r.1.None? ==> r.0 == key
    ensures r.1.Some? ==> '/' !in r.1.value && SegmentsAt(key, r.0, r.1.value)
  {
    var parts := Split(key, '/');
    if |parts| == 1 then
      assert key == parts[0];
      (parts[0], None)
    else
      JoinFirstTwo(parts, "/");
      assert '/' in key by { assert key[|parts[0]|] == '/'; }
      (parts[0], Some(parts[1]))
  }

  /** Both of the first two segments of `key` are there and non-empty. */
  predicate HasCodeAndName(key: string) {
    var (code, name) := FirstTwoSegments(key);
    code != "" && name.Some? && name.value != ""
  }

  /** The second segment of `key` is there and holds a digit. */
  predicate NameHasDigit(key: string) {
    var name := FirstTwoSegments(key).1;
    name.Some? && HasDigit(name.value)
  }

  /**
   * `getS3ObjectDetails` of the Lambda function: history code and file name are
   * the first two `/`-segments of the key, further segments are ignored, and
   * either being empty or missing is an error.
   */
  function SplitObjectDetails(event: S3Event): (r: Result<Details, Failure>)
    ensures |event.records| == 0 <==> r == Err(Thrown(NoRecord))
    ensures |event.records| > 0 && '/' !in event.records[0].key ==> r == Err(Thrown(NoHistoryCodeOrFileName))
    ensures |event.records| > 0 && |event.records[0].key| > 0 && event.records[0].key[0] == '/'
      ==> r == Err(Thrown(NoHistoryCodeOrFileName))
    ensures r == Err(Thrown(NoHistoryCodeOrFileName)) <==>
      |event.records| > 0 && !HasCodeAndName(event.records[0].key)
    ensures r == Err(Thrown(BadFileName)) <==>
      |event.records| > 0 && HasCodeAndName(event.records[0].key) && !NameHasDigit(event.records[0].key)
    ensures r.Ok? <==>
      |event.records| > 0 && HasCodeAndName(event.records[0].key) && NameHasDigit(event.records[0].key)
    ensures r.Ok? ==>
      var d := r.value;
      && d.bucket == event.records[0].bucket
      && d.key == event.records[0].key
      && d.historyCode != "" && '/' !in d.historyCode
      && d.fileName != "" && '/' !in d.fileName
      && SegmentsAt(d.key, d.historyCode, d.fileName)
      && |d.pageNumber| > 0 && IsAllDigits(d.pageNumber)
      && FirstDigits(d.fileName) == Some(d.pageNumber)
  {
    if |event.records| == 0 then Err(Thrown(NoRecord))
    else
      var record := event.records[0];
      var (historyCode, fileName) := FirstTwoSegments(record.key);
      if historyCode == "" || fileName.None? || fileName.value == "" then Err(Thrown(NoHistoryCodeOrFileName))
      else
        match FirstDigits(fileName.value)
        case None => Err(Thrown(BadFileName))
        case Some(pageNumber) => Ok(Details(record.bucket, record.key, historyCode, fileName.value, pageNumber))
  }

  /** The key the extracted tables are saved under, by the split versions. */
  function JsonKey(d: Details): string {
    d.historyCode + "/page" + d.pageNumber + ".json"
  }

  lemma ScannerKeySegments(code: string, n: nat)
    requires '/' !in code
    ensures FirstTwoSegments(ScannerKey(code, n)) == (code, Some(PageFile(n)))
  {
    PageFileDigits(n);
    var key := ScannerKey(code, n);
    var parts := [code, PageFile(n)];
    assert Join(parts, "/") == key;
    SplitJoin(parts, '/');
  }

  /** A scanner key parses back into its history code and page. */
  lemma SplitScannerRoundTrip(bucket: string, code: string, n: nat, rest: seq<S3Record>)
    requires code != "" && '/' !in code
    ensures var key := ScannerKey(code, n);
      && SplitObjectDetails(S3Event([S3Record(bucket, key)] + rest))
        == Ok(Details(bucket, key, code, PageFile(n), NatToString(n)))
      && JsonKey(Details(bucket, key, code, PageFile(n), NatToString(n)))
        == code + "/page" + NatToString(n) + ".json"
  {
    PageFileDigits(n);
    ScannerKeySegments(code, n);
  }

  // ------------------------------------------------------------ split version (unguarded JavaScript)

  /**
   * `getS3ObjectDetails` of the plain JavaScript handler: no guards, so a
   * missing record, a key without a second segment and a file name without a
   * digit all end in a TypeError, and an empty history code goes through.
   */
  function UnguardedObjectDetails(event: S3Event): (r: Result<Details, Failure>)
    ensures r.Err? ==> r.error == TypeError
    ensures r.Err? <==>
      || |event.records| == 0
      || FirstTwoSegments(event.records[0].key).1.None?
      || !HasDigit(FirstTwoSegments(event.records[0].key).1.value)
    ensures r.Ok? ==>
      var d := r.value;
      && d.bucket == event.records[0].bucket && d.key == event.records[0].key
      && FirstTwoSegments(d.key) == (d.historyCode, Some(d.fileName))
      && '/' !in d.historyCode && '/' !in d.fileName
      && SegmentsAt(d.key, d.historyCode, d.fileName)
      && |d.pageNumber| > 0 && IsAllDigits(d.pageNumber)
      && FirstDigits(d.fileName) == Some(d.pageNumber)
  {
    if |event.records| == 0 then Err(TypeError)
    else
      var record := event.records[0];
      var (historyCode, fileName) := FirstTwoSegments(record.key);
      if fileName.None? then Err(TypeError)
      else
        match FirstDigits(fileName.value)
        case None => Err(TypeError)
        case Some(pageNumber) => Ok(Details(record.bucket, record.key, historyCode, fileName.value, pageNumber))
  }

  /** Wherever the guarded version succeeds, the unguarded one returns the same details. */
  lemma UnguardedAgreesWhenGuardedSucceeds(event: S3Event)
    requires SplitObjectDetails(event).Ok?
    ensures UnguardedObjectDetails(event) == SplitObjectDetails(event)
  {
  }

  /** And the other way round, as long as the history code is not empty. */
  lemma GuardedAgreesWhenCodePresent(event: S3Event)
    requires UnguardedObjectDetails(event).Ok? && UnguardedObjectDetails(event).value.historyCode != ""
    ensures SplitObjectDetails(event) == UnguardedObjectDetails(event)
  {
  }

  /**
   * Any key with a leading slash and a digit in its second segment: the
   * unguarded handler succeeds with an empty history code, which the guarded
   * one refuses.
   */
  lemma UnguardedEmptyCode(event: S3Event)
    requires |event.records| > 0
    requires var key := event.records[0].key;
      |key| > 0 && key[0] == '/'
      && FirstTwoSegments(key).1.Some? && HasDigit(FirstTwoSegments(key).1.value)
    ensures UnguardedObjectDetails(event).Ok?
    ensures UnguardedObjectDetails(event).value.historyCode == ""
    ensures SplitObjectDetails(event) == Err(Thrown(NoHistoryCodeOrFileName))
  {
  }

  /** A key with a leading slash: the unguarded handler accepts it with an empty history code, the guarded one refuses it. */
  lemma LeadingSlashKey(bucket: string, n: nat)
    ensures var key := "/" + PageFile(n);
      var event := S3Event([S3Record(bucket, key)]);
      && UnguardedObjectDetails(event) == Ok(Details(bucket, key, "", PageFile(n), NatToString(n)))
      && JsonKey(UnguardedObjectDetails(event).value) == "/page" + NatToString(n) + ".json"
      && SplitObjectDetails(event) == Err(Thrown(NoHistoryCodeOrFileName))
  {
    var key := "/" + PageFile(n);
    var event := S3Event([S3Record(bucket, key)]);
    assert key == ScannerKey("", n);
    ScannerKeySegments("", n);
    PageFileDigits(n);
    var d := Details(bucket, key, "", PageFile(n), NatToString(n));
    assert UnguardedObjectDetails(event) == Ok(d);
    EmptyCodePage();
    assert SplitObjectDetails(event) == Err(Thrown(NoHistoryCodeOrFileName));
  }
}
