/**
 * The table and line passes of the standardizer: the header-row filter and
 * per-row parse pipeline of `cleanRows`, and the `parsedLines` loop that
 * regroups OCR line segments into visual lines.
 */
module Standardize {
  import opened Wrappers
  import opened Strings
  import opened RowParser

  // ------------------------------------------------------------ Textract output, as read by the standardizer

  datatype Cell = Cell(left: real, width: real, text: string, confidence: real, ocrConfidence: real)

  datatype Row = Row(rowConfidence: real, rowOcrConfidence: real, rowContents: seq<Cell>)

  datatype Table = Table(
    tableConfidence: real,
    tableType: string,
    tableContentsConfidence: real,
    tableContents: seq<Row>)

  /** One OCR line segment: its left edge, vertical centre and text. */
  datatype Line = Line(left: real, vCenter: real, text: string)

  // ------------------------------------------------------------ the header filter: /^(reg)|(year)/i

  /** ASCII lower case; a case-insensitive match without the `u` flag never folds a non-ASCII character onto ASCII. */
  function LowerAscii(c: char): char {
    if 'A' <= c <= 'Z' then (c as int + 32) as char else c
  }

  /** `w` (lower case) occurs case-insensitively in `s` at position `j`. */
  predicate OccursAt(s: string, j: nat, w: string) {
    j + |w| <= |s| && forall k :: 0 <= k < |w| ==> LowerAscii(s[j + k]) == w[k]
  }

  /** The first alternative, `^(reg)`: the text starts with "reg". */
  predicate StartsWithReg(s: string) {
    OccursAt(s, 0, "reg")
  }

  /** The second alternative, `(year)`, which the `^` does not anchor: "year" anywhere. */
  predicate ContainsYear(s: string) {
    exists j: nat :: j < |s| && OccursAt(s, j, "year")
  }

  /** Searches for "year" from position `i` on. */
  function FindYearFrom(s: string, i: nat): (found: bool)
    ensures found <==> exists j: nat :: i <= j < |s| && OccursAt(s, j, "year")
    decreases |s| - i
  {
    if i + 4 > |s| then
      assert forall j: nat :: i <= j ==> !OccursAt(s, j, "year");
      false
    else if OccursAt(s, i, "year") then true
    else
      var rest := FindYearFrom(s, i + 1);
      assert forall j: nat :: i <= j < |s| && OccursAt(s, j, "year") ==> i + 1 <= j;
      rest
  }

  /** Whether the header regular expression matches the cell text. */
  function IsHeaderText(text: string): (header: bool)
    ensures header <==> StartsWithReg(text) || ContainsYear(text)
  {
    var lower := seq(|text|, k requires 0 <= k < |text| => LowerAscii(text[k]));
    (|lower| >= 3 && lower[..3] == "reg") || FindYearFrom(text, 0)
  }

  /** The filter of `cleanRows`: a row survives iff it has a first cell whose text is not a header. */
  function KeepRow(row: Row): (keep: bool)
    ensures keep <==> (|row.rowContents| > 0
      && !StartsWithReg(row.rowContents[0].text)
      && !ContainsYear(row.rowContents[0].text))
  {
    |row.rowContents| > 0 && !IsHeaderText(row.rowContents[0].text)
  }

  /** The filter looks only at the first cell: the other cells may say anything. */
  lemma KeepRowFirstCellOnly(row: Row, other: seq<Cell>)
    requires |row.rowContents| > 0
    ensures KeepRow(row.(rowContents := [row.rowContents[0]] + other)) == KeepRow(row)
  {
  }

  /** A row whose first cell reads "Year" in any case, with anything around it, is dropped. */
  lemma HeaderWordDropped(row: Row, before: string, after: string)
    requires |row.rowContents| > 0
    requires row.rowContents[0].text == before + "YeAr" + after
    ensures !KeepRow(row)
  {
    assert OccursAt(row.rowContents[0].text, |before|, "year");
  }

  // ------------------------------------------------------------ the parse pipeline

  /** The cell texts of a row, in order. */
  function CellTexts(row: Row): (texts: seq<string>)
    ensures |texts| == |row.rowContents|
    ensures forall k :: 0 <= k < |texts| ==> texts[k] == row.rowContents[k].text
  {
    seq(|row.rowContents|, k requires 0 <= k < |row.rowContents| => row.rowContents[k].text)
  }

  /** `rowJoined`: the cell texts joined with single spaces. */
  function JoinCells(row: Row): string {
    Join(CellTexts(row), " ")
  }

  /** The joined row starts with the first cell's text, followed by a space when more cells come. */
  lemma JoinCellsStart(row: Row)
    requires |row.rowContents| > 0
    ensures var t, j := row.rowContents[0].text, JoinCells(row);
      && |t| <= |j| && j[..|t|] == t
      && (|t| == |j| || j[|t|] == ' ')
  {
    var texts := CellTexts(row);
    if |texts| > 1 {
      assert JoinCells(row) == texts[0] + " " + Join(texts[1..], " ");
    }
  }

  /**
   * The year a row yields is the first digit run of its first cell whenever
   * that cell holds a digit: the space the join puts after the cell ends the
   * run, so later cells cannot lengthen it.
   */
  lemma RegYearFromFirstCell(row: Row)
    requires |row.rowContents| > 0 && FirstDigits(row.rowContents[0].text).Some?
    ensures ParseRow(JoinCells(row)).regYear == FirstDigits(row.rowContents[0].text).value
  {
    var t, j := row.rowContents[0].text, JoinCells(row);
    JoinCellsStart(row);
    assert j == t + j[|t|..];
    FirstDigitsOfPrefix(t, j[|t|..]);
  }

  /** The `filter` step: the positions of the rows that survive, in increasing order, and every one of them. */
  method KeptPositions(rows: seq<Row>) returns (kept: seq<nat>)
    ensures forall k :: 0 <= k < |kept| ==> kept[k] < |rows| && KeepRow(rows[kept[k]])
    ensures forall k, l :: 0 <= k < l < |kept| ==> kept[k] < kept[l]
    ensures forall i :: 0 <= i < |rows| && KeepRow(rows[i]) ==> i in kept
  {
    kept := [];
    var i := 0;
    while i < |rows|
      invariant 0 <= i <= |rows|
      invariant forall k :: 0 <= k < |kept| ==> kept[k] < i && KeepRow(rows[kept[k]])
      invariant forall k, l :: 0 <= k < l < |kept| ==> kept[k] < kept[l]
      invariant forall j :: 0 <= j < i && KeepRow(rows[j]) ==> j in kept
    {
      if KeepRow(rows[i]) {
        kept := kept + [i];
      }
      i := i + 1;
    }
  }

  /**
   * `cleanRows`: the first table's rows, headers removed, each joined and
   * parsed. `kept` lists the positions of the surviving rows. A page with no
   * table makes `tables[0]!.tableContents` fail with a TypeError.
   */
  method CleanRows(tables: seq<Table>) returns (r: Result<seq<ParsedFields>, string>, kept: seq<nat>)
    ensures r.Err? <==> |tables| == 0
    ensures r.Err? ==> r.error == "TypeError"
    ensures r.Ok? ==> |r.value| == |kept|
    ensures r.Ok? ==> forall k :: 0 <= k < |kept| ==>
      && kept[k] < |tables[0].tableContents|
      && KeepRow(tables[0].tableContents[kept[k]])
      && r.value[k] == ParseRow(JoinCells(tables[0].tableContents[kept[k]]))
    ensures forall k, l :: 0 <= k < l < |kept| ==> kept[k] < kept[l]
    ensures r.Ok? ==> forall i :: 0 <= i < |tables[0].tableContents| && KeepRow(tables[0].tableContents[i]) ==> i in kept
  {
    if |tables| == 0 {
      return Err("TypeError"), [];
    }
    var rows := tables[0].tableContents;
    kept := KeptPositions(rows);
    var out := seq(|kept|, k requires 0 <= k < |kept| => ParseRow(JoinCells(rows[kept[k]])));
    return Ok(out), kept;
  }

  // ------------------------------------------------------------ parsedLines

  /** The groups concatenated, in order. */
  function Flatten(groups: seq<seq<Line>>): seq<Line> {
    if |groups| == 0 then [] else Flatten(groups[..|groups| - 1]) + groups[|groups| - 1]
  }

  /** Every group is non-empty and its segments move strictly to the right. */
  ghost predicate RisingGroups(groups: seq<seq<Line>>) {
    && (forall g :: 0 <= g < |groups| ==> |groups[g]| > 0)
    && (forall g, k, l :: 0 <= g < |groups| && 0 <= k < l < |groups[g]| ==> groups[g][k].left < groups[g][l].left)
  }

  /** Each group after the first opens with a segment that does not lie right of the previous group's last one. */
  ghost predicate BreaksAtDescents(groups: seq<seq<Line>>)
    requires RisingGroups(groups)
  {
    forall g, h :: 0 <= g < h < |groups| && h == g + 1 ==> groups[h][0].left <= groups[g][|groups[g]| - 1].left
  }

  lemma FlattenAppendGroup(groups: seq<seq<Line>>, g: seq<Line>)
    ensures Flatten(groups + [g]) == Flatten(groups) + g
  {
    assert (groups + [g])[..|groups|] == groups;
  }

  lemma FlattenExtendLast(groups: seq<seq<Line>>, x: Line)
    requires |groups| > 0
    ensures Flatten(groups[..|groups| - 1] + [groups[|groups| - 1] + [x]]) == Flatten(groups) + [x]
  {
    var init := groups[..|groups| - 1];
    FlattenAppendGroup(init, groups[|groups| - 1] + [x]);
  }

  /** The last segment of the last group. */
  function LastLine(groups: seq<seq<Line>>): Line
    requires |groups| > 0 && |groups[|groups| - 1]| > 0
  {
    groups[|groups| - 1][|groups[|groups| - 1]| - 1]
  }

  /** `lines[lines.length - 1].push(x)` */
  function ExtendLast(groups: seq<seq<Line>>, x: Line): seq<seq<Line>>
    requires |groups| > 0
  {
    groups[..|groups| - 1] + [groups[|groups| - 1] + [x]]
  }

  lemma ExtendLastKeepsShape(groups: seq<seq<Line>>, x: Line)
    requires RisingGroups(groups) && BreaksAtDescents(groups) && |groups| > 0
    requires LastLine(groups).left < x.left
    ensures RisingGroups(ExtendLast(groups, x)) && BreaksAtDescents(ExtendLast(groups, x))
    ensures |ExtendLast(groups, x)| == |groups| && LastLine(ExtendLast(groups, x)) == x
  {
    var r := ExtendLast(groups, x);
    var n := |groups| - 1;
    assert forall g :: 0 <= g < n ==> r[g] == groups[g];
    assert r[n] == groups[n] + [x];
  }

  lemma AppendGroupKeepsShape(groups: seq<seq<Line>>, x: Line)
    requires RisingGroups(groups) && BreaksAtDescents(groups)
    requires |groups| > 0 ==> x.left <= LastLine(groups).left
    ensures RisingGroups(groups + [[x]]) && BreaksAtDescents(groups + [[x]])
    ensures LastLine(groups + [[x]]) == x
  {
    var r := groups + [[x]];
    assert forall g :: 0 <= g < |groups| ==> r[g] == groups[g];
  }

  /** What the loop has built after `i` segments. */
  ghost predicate GroupedPrefix(groups: seq<seq<Line>>, lines: seq<Line>, i: nat) {
    && i <= |lines|
    && Flatten(groups) == lines[..i]
    && RisingGroups(groups)
    && BreaksAtDescents(groups)
    && (|groups| == 0 <==> i == 0)
    && (i > 0 ==> LastLine(groups) == lines[i - 1])
  }

  /** One iteration of the loop, on segment `i`. */
  function NextGroups(groups: seq<seq<Line>>, lines: seq<Line>, i: nat): (r: seq<seq<Line>>)
    requires i < |lines| && (i > 0 ==> |groups| > 0)
    ensures |r| > 0
  {
    if i > 0 && lines[i].left > lines[i - 1].left then ExtendLast(groups, lines[i]) else groups + [[lines[i]]]
  }

  lemma NextGroupsStep(groups: seq<seq<Line>>, lines: seq<Line>, i: nat)
    requires i < |lines| && GroupedPrefix(groups, lines, i)
    ensures GroupedPrefix(NextGroups(groups, lines, i), lines, i + 1)
  {
    var next := NextGroups(groups, lines, i);
    var x := lines[i];
    assert lines[..i + 1] == lines[..i] + [x];
    if i > 0 && x.left > lines[i - 1].left {
      assert next == ExtendLast(groups, x);
      FlattenExtendLast(groups, x);
      assert Flatten(next) == lines[..i + 1];
      ExtendLastKeepsShape(groups, x);
    } else {
      assert next == groups + [[x]];
      FlattenAppendGroup(groups, [x]);
      assert Flatten(next) == lines[..i + 1];
      AppendGroupKeepsShape(groups, x);
    }
  }

  lemma GroupedAll(groups: seq<seq<Line>>, lines: seq<Line>)
    requires GroupedPrefix(groups, lines, |lines|)
    ensures Flatten(groups) == lines && RisingGroups(groups) && BreaksAtDescents(groups)
    ensures |groups| == 0 <==> |lines| == 0
  {
    assert lines[..|lines|] == lines;
  }

  /** The groups `parsedLines` holds once it has seen the first `i` segments. */
  function GroupPrefix(lines: seq<Line>, i: nat): (r: seq<seq<Line>>)
    requires i <= |lines|
    ensures i > 0 ==> |r| > 0
    decreases i
  {
    if i == 0 then [] else NextGroups(GroupPrefix(lines, i - 1), lines, i - 1)
  }

  /** Every prefix of the run keeps the shape: concatenation, rising groups, breaks exactly at descents. */
  lemma {:induction false} GroupPrefixShape(lines: seq<Line>, i: nat)
    requires i <= |lines|
    ensures GroupedPrefix(GroupPrefix(lines, i), lines, i)
    decreases i
  {
    if i == 0 {
      assert lines[..0] == [];
    } else {
      GroupPrefixShape(lines, i - 1);
      NextGroupsStep(GroupPrefix(lines, i - 1), lines, i - 1);
    }
  }

  /**
   * The `parsedLines` loop: a segment joins the current group when it lies
   * strictly right of the segment before it, and opens a new group otherwise
   * (always, for the first segment).
   */
  method GroupLines(lines: seq<Line>) returns (groups: seq<seq<Line>>)
    ensures groups == GroupPrefix(lines, |lines|)
    ensures Flatten(groups) == lines
    ensures RisingGroups(groups)
    ensures BreaksAtDescents(groups)
    ensures |groups| == 0 <==> |lines| == 0
  {
    groups := [];
    var i := 0;
    while i < |lines|
      invariant 0 <= i <= |lines|
      invariant groups == GroupPrefix(lines, i)
    {
      groups := NextGroups(groups, lines, i);
      i := i + 1;
    }
    GroupPrefixShape(lines, i);
    GroupedAll(groups, lines);
  }
}
