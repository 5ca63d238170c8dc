/**
 * `path.basename` and `path.dirname` of Node's POSIX path module, as the
 * scan-page handler applies them to S3 object keys. Both scan the path from
 * its end; `dirname` never looks at the first character while scanning and
 * treats a leading `/` as a root.
 */
module NodePath {

  /** End of `p[..e]` once its trailing slashes are dropped. */
  function StripSlashes(p: string, e: nat): (r: nat)
    requires e <= |p|
    ensures r <= e
    ensures forall i :: r <= i < e ==> p[i] == '/'
    ensures r == 0 || p[r - 1] != '/'
  {
    if e == 0 || p[e - 1] != '/' then e else StripSlashes(p, e - 1)
  }

  /** Start of the slash-free segment that ends at `e`. */
  function SegmentStart(p: string, e: nat): (r: nat)
    requires e <= |p|
    ensures r <= e
    ensures forall i :: r <= i < e ==> p[i] != '/'
    ensures r == 0 || p[r - 1] == '/'
  {
    if e == 0 || p[e - 1] == '/' then e else SegmentStart(p, e - 1)
  }

  /**
   * `name` occurs in `p` at `s`, right after a slash or at the start, and
   * nothing but slashes follows it.
   */
  predicate LastSegmentAt(p: string, name: string, s: nat) {
    && s + |name| <= |p|
    && p[s..s + |name|] == name
    && (s == 0 || p[s - 1] == '/')
    && forall i :: s + |name| <= i < |p| ==> p[i] == '/'
  }

  /** `path.basename(p)`: the last segment, trailing slashes ignored; empty when `p` holds nothing but slashes. */
  function Basename(p: string): (r: string)
    ensures '/' !in r
    ensures |r| <= |p|
    ensures r == [] <==> forall i :: 0 <= i < |p| ==> p[i] == '/'
    ensures exists s: nat :: LastSegmentAt(p, r, s)
  {
    var e := StripSlashes(p, |p|);
    var s := SegmentStart(p, e);
    assert e > 0 ==> p[e - 1] != '/' && s < e;
    assert LastSegmentAt(p, p[s..e], s);
    p[s..e]
  }

  /** The basename is the only non-empty slash-free segment that ends the path up to trailing slashes. */
  lemma BasenameIsLastSegment(p: string, name: string, s: nat)
    requires name != [] && '/' !in name
    requires LastSegmentAt(p, name, s)
    ensures Basename(p) == name
  {
    var e := s + |name|;
    assert p[e - 1] == name[|name| - 1];
    assert StripSlashes(p, |p|) == e by {
      StripSlashesPast(p, e, |p|);
    }
    assert forall i :: s <= i < e ==> p[i] == name[i - s];
    if s == 0 {
      SegmentStartOfSegment(p, e);
    } else {
      SegmentStartAfterSlash(p, s - 1, e);
    }
  }

  lemma {:induction false} StripSlashesPast(p: string, e: nat, k: nat)
    requires 0 < e <= k <= |p| && p[e - 1] != '/'
    requires forall i :: e <= i < k ==> p[i] == '/'
    ensures StripSlashes(p, k) == e
    decreases k
  {
    if k > e {
      StripSlashesPast(p, e, k - 1);
    }
  }

  /**
   * The loop of `path.dirname`, from index `i` down to 1: the first slash met
   * after at least one other character, or -1 when there is none.
   */
  function DirScan(p: string, i: int, matchedSlash: bool): (end: int)
    requires i < |p|
    ensures end == -1 || (1 <= end <= i && p[end] == '/')
    ensures end == -1 || !matchedSlash || end < i
    decreases i
  {
    if i < 1 then -1
    else if p[i] == '/' then
      if !matchedSlash then i else DirScan(p, i - 1, matchedSlash)
    else DirScan(p, i - 1, false)
  }

  /**
   * `path.dirname(p)`: never empty; "." or "/" when there is no directory part,
   * "//" for a double-slash root, and otherwise everything before the slash
   * that precedes the last segment.
   */
  function Dirname(p: string): (r: string)
    ensures |r| > 0
    ensures r == "." || r == "/" || r == "//" || (|r| < |p| && r == p[..|r|] && p[|r|] == '/')
    ensures Basename(p) == [] ==> r == (if p == [] then "." else "/")
    ensures forall s: nat :: Basename(p) != [] && LastSegmentAt(p, Basename(p), s) ==>
      r == (if s <= 1 then (if p[0] == '/' then "/" else ".")
            else if s == 2 && p[0] == '/' then "//"
            else p[..s - 1])
  {
    DirScanOfLastSegment(p);
    if |p| == 0 then "."
    else
      var end := DirScan(p, |p| - 1, true);
      if end == -1 then (if p[0] == '/' then "/" else ".")
      else if p[0] == '/' && end == 1 then "//"
      else p[..end]
  }

  /**
   * Where the scan of `path.dirname` stops: at the slash before the last
   * segment when that slash is not the first character, and nowhere otherwise.
   */
  lemma DirScanOfLastSegment(p: string)
    ensures Basename(p) == [] ==> DirScan(p, |p| - 1, true) == -1
    ensures forall s: nat :: Basename(p) != [] && LastSegmentAt(p, Basename(p), s) ==>
      DirScan(p, |p| - 1, true) == (if s >= 2 then s - 1 else -1)
  {
    var b := Basename(p);
    if b == [] {
      DirScanAllSlashes(p, |p| - 1);
    } else {
      forall s: nat | LastSegmentAt(p, b, s)
        ensures DirScan(p, |p| - 1, true) == (if s >= 2 then s - 1 else -1)
      {
        DirScanBeforeSegment(p, b, s);
      }
    }
  }

  lemma DirScanBeforeSegment(p: string, name: string, s: nat)
    requires name != [] && '/' !in name
    requires LastSegmentAt(p, name, s)
    ensures DirScan(p, |p| - 1, true) == (if s >= 2 then s - 1 else -1)
  {
    var e := s + |name|;
    assert forall j :: s <= j < e ==> p[j] == name[j - s];
    assert p[e - 1] == name[|name| - 1];
    DirScanSkipsSlashes(p, e, |p| - 1);
    if e >= 2 {
      assert DirScan(p, e - 1, true) == DirScan(p, e - 2, false);
      if s >= 2 {
        DirScanSkipsName(p, s - 1, e - 2);
      } else {
        DirScanNoSlash(p, e - 2);
      }
    }
  }

  lemma {:induction false} DirScanAllSlashes(p: string, i: int)
    requires i < |p|
    requires forall j :: 0 <= j <= i ==> p[j] == '/'
    ensures DirScan(p, i, true) == -1
    decreases i
  {
    if i >= 1 {
      DirScanAllSlashes(p, i - 1);
    }
  }

  lemma {:induction false} DirScanSkipsSlashes(p: string, e: nat, i: int)
    requires 0 < e && e - 1 <= i < |p| && p[e - 1] != '/'
    requires forall j :: e <= j <= i ==> p[j] == '/'
    ensures DirScan(p, i, true) == DirScan(p, e - 1, true)
    decreases i
  {
    if i > e - 1 {
      DirScanSkipsSlashes(p, e, i - 1);
    }
  }

  lemma {:induction false} DirScanNoSlash(p: string, i: int)
    requires i < |p|
    requires forall j :: 1 <= j <= i ==> p[j] != '/'
    ensures DirScan(p, i, false) == -1
    decreases i
  {
    if i >= 1 {
      DirScanNoSlash(p, i - 1);
    }
  }

  /** A path without a slash is its own basename. */
  lemma BasenameOfSegment(name: string)
    requires '/' !in name
    ensures Basename(name) == name
  {
    assert StripSlashes(name, |name|) == |name| by {
      if |name| > 0 { assert name[|name| - 1] != '/'; }
    }
    SegmentStartOfSegment(name, |name|);
  }

  lemma {:induction false} SegmentStartOfSegment(p: string, e: nat)
    requires e <= |p|
    requires forall i :: 0 <= i < e ==> p[i] != '/'
    ensures SegmentStart(p, e) == 0
    decreases e
  {
    if e > 0 {
      SegmentStartOfSegment(p, e - 1);
    }
  }

  lemma {:induction false} SegmentStartAfterSlash(p: string, k: nat, e: nat)
    requires k < e <= |p| && p[k] == '/'
    requires forall i :: k < i < e ==> p[i] != '/'
    ensures SegmentStart(p, e) == k + 1
    decreases e
  {
    if e > k + 1 {
      SegmentStartAfterSlash(p, k, e - 1);
    }
  }

  /** The basename of `dir/name` is `name`. */
  lemma BasenameOfJoin(dir: string, name: string)
    requires |name| > 0 && '/' !in name
    ensures Basename(dir + "/" + name) == name
  {
    var p := dir + "/" + name;
    assert p[|p| - 1] == name[|name| - 1];
    assert StripSlashes(p, |p|) == |p|;
    assert forall i :: |dir| < i < |p| ==> p[i] == name[i - |dir| - 1];
    SegmentStartAfterSlash(p, |dir|, |p|);
    assert p[|dir| + 1..] == name;
  }

  lemma {:induction false} DirScanSkipsName(p: string, k: nat, i: nat)
    requires 1 <= k <= i < |p| && p[k] == '/'
    requires forall j :: k < j <= i ==> p[j] != '/'
    ensures DirScan(p, i, false) == k
    decreases i
  {
    if i > k {
      DirScanSkipsName(p, k, i - 1);
    }
  }

  /** The dirname of `dir/name` is `dir`, unless `dir` is the root alone. */
  lemma DirnameOfJoin(dir: string, name: string)
    requires |dir| > 0 && dir != "/"
    requires |name| > 0 && '/' !in name
    ensures Dirname(dir + "/" + name) == dir
  {
    var p := dir + "/" + name;
    var k := |dir|;
    assert p[k] == '/';
    assert forall j :: k < j < |p| ==> p[j] == name[j - k - 1];
    assert p[|p| - 1] != '/';
    assert DirScan(p, |p| - 1, true) == k by {
      if |p| - 2 >= k {
        DirScanSkipsName(p, k, |p| - 2);
      }
    }
    assert p[..k] == dir;
  }

  /** A path without a slash has no directory part. */
  lemma DirnameOfSegment(name: string)
    requires '/' !in name
    ensures Dirname(name) == "."
  {
    if |name| > 0 {
      assert name[0] != '/';
    }
  }
}
