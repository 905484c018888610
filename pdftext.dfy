/**
 * `processExtractedText` of the PDF import screens: the text the PDF reader
 * produced is cut into lines, blank lines are dropped, the first line gives
 * the column headers and every later line becomes a row keyed by them.
 *
 * The screens differ only in how a header cell is cleaned (trimmed, or
 * passed through the screen's `normalizeHeader`), so that step is a
 * parameter here.
 */
module PdfText {
  import opened Wrappers
  import opened Seqs
  import opened Text
  import opened Models

  /** A line with something other than whitespace (`l.trim()` is truthy). */
  predicate NonBlank(l: string) {
    Trim(l) != ""
  }

  /** `lines.filter(l => l.trim())`: the lines that are not blank, in order. */
  function KeepNonBlank(ls: seq<string>): seq<string> {
    Filter(ls, NonBlank)
  }

  /**
   * The kept lines are exactly the non-blank ones, in their order, each
   * non-blank line as often as it occurs.
   */
  lemma KeepNonBlankMembers(ls: seq<string>)
    ensures forall l :: l in KeepNonBlank(ls) <==> l in ls && Trim(l) != ""
    ensures Subsequence(KeepNonBlank(ls), ls)
    ensures forall l :: multiset(KeepNonBlank(ls))[l] == if Trim(l) != "" then multiset(ls)[l] else 0
  {
    FilterMembers(ls, NonBlank);
    FilterSubsequence(ls, NonBlank);
    FilterMultiset(ls, NonBlank);
  }

  /** `text.split("\n").filter(l => l.trim())`. */
  function NonBlankLines(text: string): seq<string>
  {
    KeepNonBlank(SplitOn(text, '\n'))
  }

  /** Joining blank pieces with a whitespace separator gives blank text, and conversely. */
  lemma {:induction false} JoinBlank(pieces: seq<string>)
    requires |pieces| >= 1
    ensures IsBlank(Join(pieces, '\n')) <==> forall i :: 0 <= i < |pieces| ==> IsBlank(pieces[i])
  {
    if |pieces| > 1 {
      JoinBlank(pieces[1..]);
      var s := Join(pieces, '\n');
      var head, rest := pieces[0], Join(pieces[1..], '\n');
      assert s == head + ['\n'] + rest;
      if IsBlank(s) {
        forall k | 0 <= k < |head| ensures IsSpace(head[k]) { assert s[k] == head[k]; }
        forall k | 0 <= k < |rest| ensures IsSpace(rest[k]) { assert s[|head| + 1 + k] == rest[k]; }
        forall i | 0 <= i < |pieces| ensures IsBlank(pieces[i]) {
          if i > 0 { assert pieces[i] == pieces[1..][i - 1]; }
        }
      }
      if forall i :: 0 <= i < |pieces| ==> IsBlank(pieces[i]) {
        assert IsBlank(head);
        assert forall i :: 0 <= i < |pieces[1..]| ==> IsBlank(pieces[1..][i]);
        forall k | 0 <= k < |s| ensures IsSpace(s[k]) {
          if k < |head| { assert s[k] == head[k]; }
          else if k > |head| { assert s[k] == rest[k - |head| - 1]; }
        }
      }
    }
  }

  /** No line survives exactly when the whole text is whitespace. */
  lemma NonBlankLinesEmpty(text: string)
    ensures NonBlankLines(text) == [] <==> IsBlank(text)
  {
    var ls := SplitOn(text, '\n');
    SplitOnJoin(text, '\n');
    JoinBlank(ls);
    FilterNone(ls, NonBlank);
    forall i | 0 <= i < |ls| ensures NonBlank(ls[i]) <==> !IsBlank(ls[i]) {
      TrimEmptyIffBlank(ls[i]);
    }
  }

  /** A cleaned cell is in the list exactly when it cleans some cell. */
  lemma CleanAllMembers(cells: seq<string>, clean: string -> string)
    ensures forall h :: h in Map(cells, clean) <==> exists j :: 0 <= j < |cells| && clean(cells[j]) == h
  {
    var r := Map(cells, clean);
    forall h | h in r ensures exists j :: 0 <= j < |cells| && clean(cells[j]) == h {
      var j :| 0 <= j < |r| && r[j] == h;
    }
  }

  /** The header cells: the first line split on wide gaps, each cell cleaned by `clean`. */
  function Headers(line: string, clean: string -> string): seq<string> {
    Map(SplitWide(line), clean)
  }

  /** `values[i]?.trim() || ""`: the trimmed value at position `i`, or "" when the line has fewer values. */
  function CellValue(values: seq<string>, i: nat): string {
    if i < |values| then Trim(values[i]) else ""
  }

  /** The row the `forEach` over the headers builds: each header maps to its positional value; a later repeat of a header overwrites an earlier one. */
  function ZipRow(headers: seq<string>, values: seq<string>): Row {
    if headers == [] then map[]
    else
      var n := |headers| - 1;
      ZipRow(headers[..n], values)[headers[n] := CellValue(values, n)]
  }

  /** Every header is a key of the row and nothing else is. */
  lemma {:induction false} ZipRowKeys(headers: seq<string>, values: seq<string>)
    ensures forall k :: k in ZipRow(headers, values) <==> k in headers
  {
    if headers != [] {
      var n := |headers| - 1;
      ZipRowKeys(headers[..n], values);
      assert headers == headers[..n] + [headers[n]];
    }
  }

  /** A header's value is the one at the header's last position; with distinct headers each header gets its own column. */
  lemma {:induction false} ZipRowValue(headers: seq<string>, values: seq<string>, i: nat)
    requires i < |headers|
    requires forall j :: i < j < |headers| ==> headers[j] != headers[i]
    ensures headers[i] in ZipRow(headers, values)
    ensures ZipRow(headers, values)[headers[i]] == CellValue(values, i)
  {
    var n := |headers| - 1;
    var prev := ZipRow(headers[..n], values);
    assert ZipRow(headers, values) == prev[headers[n] := CellValue(values, n)];
    if i < n {
      ZipRowValue(headers[..n], values, i);
      assert headers[..n][i] == headers[i];
      assert headers[n] != headers[i];
    }
  }

  /** The row holds at least one non-empty value (`Object.values(r).some(v => v)`). */
  predicate HasValue(row: Row) {
    exists k :: k in row && row[k] != ""
  }

  /** `rows.filter(r => Object.values(r).some(v => v))`: the rows with a value, in order. */
  function KeepRows(rows: seq<Row>): seq<Row> {
    Filter(rows, HasValue)
  }

  /**
   * The kept rows are exactly the ones with a value, in their order, each
   * as often as it occurs; every other row is dropped.
   */
  lemma KeepRowsMembers(rows: seq<Row>)
    ensures forall r :: r in KeepRows(rows) <==> r in rows && HasValue(r)
    ensures Subsequence(KeepRows(rows), rows)
    ensures forall r :: multiset(KeepRows(rows))[r] == if HasValue(r) then multiset(rows)[r] else 0
    ensures |KeepRows(rows)| + |Filter(rows, Not(HasValue))| == |rows|
  {
    FilterMembers(rows, HasValue);
    FilterSubsequence(rows, HasValue);
    FilterMultiset(rows, HasValue);
    FilterSplit(rows, HasValue);
  }

  /** Each data line zipped with the headers. */
  function ZipLines(headers: seq<string>, lines: seq<string>): (r: seq<Row>)
    ensures |r| == |lines|
    ensures forall i :: 0 <= i < |lines| ==> r[i] == ZipRow(headers, SplitWide(lines[i]))
  {
    if lines == [] then [] else [ZipRow(headers, SplitWide(lines[0]))] + ZipLines(headers, lines[1..])
  }

  /** The headers and the rows that carry a value, or `None` when the text has no non-blank line (where `lines[0]` is undefined and the screen throws). */
  function Extracted(text: string, clean: string -> string): Option<(seq<string>, seq<Row>)> {
    var lines := NonBlankLines(text);
    if lines == [] then None
    else
      var headers := Headers(lines[0], clean);
      Some((headers, KeepRows(ZipLines(headers, lines[1..]))))
  }

  /** The text is rejected exactly when it is blank. */
  lemma ExtractedFails(text: string, clean: string -> string)
    ensures Extracted(text, clean).None? <==> IsBlank(text)
  {
    NonBlankLinesEmpty(text);
  }

  /**
   * Every row comes from a data line, keeps every header as a key, and has
   * a non-empty value; every data line with a value is kept. The rows are
   * those of the data lines in line order, one per line whose row has a
   * value, and the lines whose row is empty are the ones dropped.
   */
  lemma ExtractedRows(text: string, clean: string -> string)
    requires Extracted(text, clean).Some?
    ensures var (headers, rows) := Extracted(text, clean).value;
      var zipped := ZipLines(headers, NonBlankLines(text)[1..]);
      && (forall r :: r in rows ==> HasValue(r) && forall k :: k in r <==> k in headers)
      && (forall l :: l in NonBlankLines(text)[1..] && HasValue(ZipRow(headers, SplitWide(l))) ==>
            ZipRow(headers, SplitWide(l)) in rows)
      && Subsequence(rows, zipped)
      && (forall r :: multiset(rows)[r] == if HasValue(r) then multiset(zipped)[r] else 0)
      && |rows| + |Filter(zipped, Not(HasValue))| == |NonBlankLines(text)| - 1
  {
    var lines := NonBlankLines(text);
    var headers := Headers(lines[0], clean);
    KeptRowsShape(headers, lines[1..]);
    KeptRowsComplete(headers, lines[1..]);
    KeepRowsMembers(ZipLines(headers, lines[1..]));
  }

  /** The kept rows have a value and exactly the headers as keys. */
  lemma KeptRowsShape(headers: seq<string>, data: seq<string>)
    ensures forall r :: r in KeepRows(ZipLines(headers, data)) ==> HasValue(r) && forall k :: k in r <==> k in headers
  {
    var zipped := ZipLines(headers, data);
    KeepRowsMembers(zipped);
    forall r | r in KeepRows(zipped)
      ensures forall k :: k in r <==> k in headers
    {
      var i :| 0 <= i < |zipped| && zipped[i] == r;
      ZipRowKeys(headers, SplitWide(data[i]));
    }
  }

  /** Every data line whose row has a value is kept. */
  lemma KeptRowsComplete(headers: seq<string>, data: seq<string>)
    ensures forall l :: l in data && HasValue(ZipRow(headers, SplitWide(l))) ==>
      ZipRow(headers, SplitWide(l)) in KeepRows(ZipLines(headers, data))
  {
    var zipped := ZipLines(headers, data);
    KeepRowsMembers(zipped);
    forall l | l in data && HasValue(ZipRow(headers, SplitWide(l)))
      ensures ZipRow(headers, SplitWide(l)) in KeepRows(zipped)
    {
      var i :| 0 <= i < |data| && data[i] == l;
      assert zipped[i] in zipped;
    }
  }

  /**
   * Round trip: a data line whose cells are clean and laid out two spaces
   * apart, under distinct headers, yields a row mapping each header to its
   * own cell.
   */
  lemma ZipRowJoinWide(headers: seq<string>, cells: seq<string>, i: nat)
    requires |cells| >= 1 && i < |headers|
    requires forall j :: 0 <= j < |cells| ==> CleanPiece(cells[j])
    requires forall j :: 1 <= j < |cells| ==> cells[j] != []
    requires forall j :: i < j < |headers| ==> headers[j] != headers[i]
    ensures headers[i] in ZipRow(headers, SplitWide(JoinWide(cells)))
    ensures ZipRow(headers, SplitWide(JoinWide(cells)))[headers[i]] == (if i < |cells| then cells[i] else "")
  {
    var values := SplitWide(JoinWide(cells));
    SplitWideJoinWide(cells);
    assert values == cells;
    ZipRowValue(headers, values, i);
    if i < |cells| {
      TrimClean(cells[i]);
      assert CellValue(values, i) == cells[i];
    }
  }

  /** A clean piece is its own trim. */
  lemma TrimClean(p: string)
    requires CleanPiece(p)
    ensures Trim(p) == p
  {
    TrimSpec(p);
    if p != [] {
      var t := Trim(p);
      assert |TrimEnd(p)| == |p| by {
        assert !IsSpace(p[|p| - 1]);
      }
      assert TrimEnd(p) == p;
      assert TrimStart(p) == p by {
        assert !IsSpace(p[0]);
      }
    }
  }

  /** `headers.forEach((h, i) => (row[h] = values[i]?.trim() || ""))`. */
  method BuildRow(headers: seq<string>, values: seq<string>) returns (row: Row)
    ensures row == ZipRow(headers, values)
  {
    row := map[];
    var i := 0;
    while i < |headers|
      invariant 0 <= i <= |headers|
      invariant row == ZipRow(headers[..i], values)
    {
      var v := if i < |values| then Trim(values[i]) else "";
      ZipRowStep(headers, values, i);
      row := row[headers[i] := v];
      i := i + 1;
    }
    assert headers[..i] == headers;
  }

  /** One more header extends the row by that header's value. */
  lemma ZipRowStep(headers: seq<string>, values: seq<string>, i: nat)
    requires i < |headers|
    ensures ZipRow(headers[..i + 1], values) == ZipRow(headers[..i], values)[headers[i] := CellValue(values, i)]
  {
    assert headers[..i + 1][..i] == headers[..i];
  }

  /** `lines.slice(1).map(...)`: every data line turned into a row. */
  method BuildRows(headers: seq<string>, data: seq<string>) returns (rows: seq<Row>)
    ensures rows == ZipLines(headers, data)
  {
    rows := [];
    var i := 0;
    while i < |data|
      invariant 0 <= i <= |data|
      invariant |rows| == i
      invariant forall j :: 0 <= j < i ==> rows[j] == ZipRow(headers, SplitWide(data[j]))
    {
      var row := BuildRow(headers, SplitWide(data[i]));
      rows := rows + [row];
      i := i + 1;
    }
  }

  /** `processExtractedText`: `None` when the text has no non-blank line. */
  method ProcessExtractedText(text: string, clean: string -> string) returns (r: Option<(seq<string>, seq<Row>)>)
    ensures r == Extracted(text, clean)
  {
    if NonBlankLines(text) == [] {
      r := None;
    } else {
      var headers := Headers(NonBlankLines(text)[0], clean);
      var rows := BuildRows(headers, NonBlankLines(text)[1..]);
      r := Some((headers, KeepRows(rows)));
    }
  }
}
