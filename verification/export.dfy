/** The nominal sheet built by `generateNominal`: an optional heading row, the
    header row of the first selected record's file, then one copied row per
    selected record with the serial column renumbered; plus the heading merge
    and the column widths. */
module Export {
  import opened Wrappers
  import opened Strings
  import opened Ingest

  /** A cell written to the nominal: the text read from the upload, or the
      number stored by the renumbering. */
  datatype Value = Text(text: string) | Number(n: int)

  /** A row of the nominal; `None` is a hole or an undefined cell, which the
      sheet writer leaves empty. */
  type SheetRow = seq<Option<Value>>

  /** A merged range `{s: {r, c}, e: {r, c}}`, inclusive at both ends. */
  datatype Merge = Merge(startRow: int, startCol: int, endRow: int, endCol: int)

  /** The rows handed to the sheet writer, its `!merges` and its `!cols`
      (the `wch` of each column; `None` where `headers.map` skips a hole). */
  datatype Nominal = Nominal(rows: seq<SheetRow>, merges: seq<Merge>, cols: seq<Option<int>>)

  /** The `wch` given to every column. */
  const ColumnWidth := 15

  /** A row read from the upload, as written back: text cells stay text. */
  function Lift(row: Row): (r: SheetRow)
    ensures |r| == |row|
    ensures forall j :: 0 <= j < |row| ==> r[j] == (if row[j].Some? then Some(Text(row[j].value)) else None)
  {
    seq(|row|, j requires 0 <= j < |row| => if row[j].Some? then Some(Text(row[j].value)) else None)
  }

  /** `row[i] = v` on a JavaScript array: past the end the array grows, and
      the positions skipped over become holes. */
  function SetCell(row: SheetRow, i: nat, v: Value): SheetRow {
    if i < |row| then row[i := Some(v)]
    else row + seq(i - |row|, _ => None) + [Some(v)]
  }

  /** Setting a cell changes that cell, pads with holes up to it, and keeps
      every other cell. */
  lemma SetCellSpec(row: SheetRow, i: nat, v: Value)
    ensures |SetCell(row, i, v)| == if i < |row| then |row| else i + 1
    ensures SetCell(row, i, v)[i] == Some(v)
    ensures forall j :: 0 <= j < |SetCell(row, i, v)| && j != i ==>
      SetCell(row, i, v)[j] == (if j < |row| then row[j] else None)
  {
  }

  /** `slIdx`: the first header mentioning "sl" or "s.no", or -1. */
  function SerialIndex(headers: Row): int {
    FindIndex(headers, ["sl", "s.no"])
  }

  /** The copy of a selected record's row written as data row k (0-based):
      the serial cell, when there is a serial column, holds k + 1. */
  function DataRow(c: Cadet, sl: int, k: nat): SheetRow {
    if sl >= 0 then SetCell(Lift(c.rowData), sl, Number(k + 1)) else Lift(c.rowData)
  }

  /** `headers.map(() => ({wch: 15}))`: one entry per header, a hole stays a hole. */
  function ColWidths(headers: Row): (r: seq<Option<int>>)
    ensures |r| == |headers|
    ensures forall j :: 0 <= j < |headers| ==> (r[j] == Some(ColumnWidth) <==> headers[j].Some?)
    ensures forall j :: 0 <= j < |headers| ==> (r[j] == None <==> headers[j].None?)
  {
    seq(|headers|, j requires 0 <= j < |headers| => if headers[j].Some? then Some(ColumnWidth) else None)
  }

  /** The heading row, present exactly when the trimmed heading is not empty. */
  function HeadingRows(heading: string): seq<SheetRow> {
    if heading != "" then [[Some(Text(heading))]] else []
  }

  /** The merge of the heading across the width of the header row. */
  function HeadingMerges(heading: string, headers: Row): seq<Merge> {
    if heading != "" then [Merge(0, 0, 0, |headers| - 1)] else []
  }

  /** The data rows, one per selected record in selection order. */
  function DataRows(selected: seq<Cadet>, sl: int): (r: seq<SheetRow>)
    ensures |r| == |selected|
    ensures forall k :: 0 <= k < |selected| ==> r[k] == DataRow(selected[k], sl, k)
  {
    seq(|selected|, k requires 0 <= k < |selected| => DataRow(selected[k], sl, k))
  }

  /** What `generateNominal` hands to the sheet writer for the heading input
      and the selected records, or `None` when nothing is selected. */
  function NominalOf(headingInput: string, selected: seq<Cadet>): Option<Nominal> {
    if selected == [] then None
    else
      var heading := Trim(headingInput);
      var headers := selected[0].headers;
      var sl := SerialIndex(headers);
      Some(Nominal(HeadingRows(heading) + [Lift(headers)] + DataRows(selected, sl),
                   HeadingMerges(heading, headers), ColWidths(headers)))
  }

  /** `generateNominal` minus the file write: the rows are pushed one by one
      onto `wsData`, each data row a copy of the record's row with the serial
      cell overwritten. */
  method BuildNominal(headingInput: string, selected: seq<Cadet>) returns (r: Option<Nominal>)
    ensures r == NominalOf(headingInput, selected)
  {
    if |selected| == 0 {
      return None;
    }
    var heading := Trim(headingInput);
    var headers := selected[0].headers;
    var sl := SerialIndex(headers);
    var wsData: seq<SheetRow> := [];
    if heading != "" {
      wsData := wsData + [[Some(Text(heading))]];
    }
    wsData := wsData + [Lift(headers)];
    assert wsData == HeadingRows(heading) + [Lift(headers)];
    wsData := PushDataRows(wsData, selected, sl);
    var merges: seq<Merge> := [];
    if heading != "" {
      merges := merges + [Merge(0, 0, 0, |headers| - 1)];
    }
    assert merges == HeadingMerges(heading, headers);
    r := Some(Nominal(wsData, merges, ColWidths(headers)));
  }

  /** The `selected.forEach` of `generateNominal`: data row k is pushed after
      the rows already in `wsData`. */
  method PushDataRows(top: seq<SheetRow>, selected: seq<Cadet>, sl: int) returns (wsData: seq<SheetRow>)
    ensures wsData == top + DataRows(selected, sl)
  {
    wsData := top;
    for k := 0 to |selected|
      invariant |wsData| == |top| + k
      invariant wsData[..|top|] == top
      invariant forall i :: 0 <= i < k ==> wsData[|top| + i] == DataRow(selected[i], sl, i)
    {
      var row := Lift(selected[k].rowData);
      if sl >= 0 {
        row := SetCell(row, sl, Number(k + 1));
      }
      wsData := wsData + [row];
    }
    forall i | 0 <= i < |wsData| ensures wsData[i] == (top + DataRows(selected, sl))[i] {
      if i < |top| {
        assert wsData[i] == wsData[..|top|][i];
      }
    }
  }

  /** Without a selected record there is no nominal. */
  lemma NothingSelected(headingInput: string)
    ensures NominalOf(headingInput, []) == None
  {
  }

  /** The rows of the nominal: the heading row when the trimmed heading is not
      empty, then the first selected record's header row verbatim, then one
      row per selected record in selection order. */
  lemma NominalRows(headingInput: string, selected: seq<Cadet>)
    requires selected != []
    ensures var n := NominalOf(headingInput, selected).value;
      var h := if Trim(headingInput) != "" then 1 else 0;
      && |n.rows| == h + 1 + |selected|
      && (h == 1 ==> n.rows[0] == [Some(Text(Trim(headingInput)))])
      && n.rows[h] == Lift(selected[0].headers)
      && forall k :: 0 <= k < |selected| ==>
           n.rows[h + 1 + k] == DataRow(selected[k], SerialIndex(selected[0].headers), k)
  {
  }

  /** Data row k holds k + 1 in the serial column, found on the first selected
      record's header row, and a copy of the record's own cell everywhere else;
      without a serial column it is the record's row unchanged. */
  lemma DataRowCells(c: Cadet, sl: int, k: nat)
    ensures sl < 0 ==> DataRow(c, sl, k) == Lift(c.rowData)
    ensures sl >= 0 ==> |DataRow(c, sl, k)| == if sl < |c.rowData| then |c.rowData| else sl + 1
    ensures sl >= 0 ==> DataRow(c, sl, k)[sl] == Some(Number(k + 1))
    ensures forall j :: 0 <= j < |DataRow(c, sl, k)| && j != sl ==>
      DataRow(c, sl, k)[j] == (if j < |c.rowData| && c.rowData[j].Some? then Some(Text(c.rowData[j].value)) else None)
  {
    if sl >= 0 {
      SetCellSpec(Lift(c.rowData), sl, Number(k + 1));
    }
  }

  /** With a serial column, the data rows are numbered 1, 2, ..., N in order. */
  lemma SerialNumbers(headingInput: string, selected: seq<Cadet>)
    requires selected != [] && SerialIndex(selected[0].headers) >= 0
    ensures var n := NominalOf(headingInput, selected).value;
      var h := if Trim(headingInput) != "" then 1 else 0;
      var sl := SerialIndex(selected[0].headers);
      var data := n.rows[h + 1..];
      |data| == |selected| &&
      forall k :: 0 <= k < |selected| ==> sl < |data[k]| && data[k][sl] == Some(Number(k + 1))
  {
    var n := NominalOf(headingInput, selected).value;
    var h := if Trim(headingInput) != "" then 1 else 0;
    var sl := SerialIndex(selected[0].headers);
    var data := n.rows[h + 1..];
    NominalRows(headingInput, selected);
    forall k | 0 <= k < |selected| ensures sl < |data[k]| && data[k][sl] == Some(Number(k + 1)) {
      assert data[k] == n.rows[h + 1 + k];
      DataRowCells(selected[k], sl, k);
    }
  }

  /** A heading adds exactly one merge, over row 0 from column 0 to the last
      header column; without a heading there is none. There is one width
      entry per header. */
  lemma NominalLayout(headingInput: string, selected: seq<Cadet>)
    requires selected != []
    ensures var n := NominalOf(headingInput, selected).value;
      && (Trim(headingInput) != "" ==> n.merges == [Merge(0, 0, 0, |selected[0].headers| - 1)])
      && (Trim(headingInput) == "" ==> n.merges == [])
      && |n.cols| == |selected[0].headers|
  {
  }

  /** When the first selected record's header row is not empty (every record
      comes from a sheet with a name column), the heading merge spans at least
      one column and ends on the last header column. */
  lemma HeadingMergeSpans(headingInput: string, selected: seq<Cadet>)
    requires selected != [] && selected[0].headers != []
    requires Trim(headingInput) != ""
    ensures var m := NominalOf(headingInput, selected).value.merges[0];
      0 == m.startCol <= m.endCol == |selected[0].headers| - 1 && m.startRow == m.endRow == 0
  {
  }

  /** The heading row is never blank at either end: it is the trimmed input,
      which trimming once more leaves as it is. */
  lemma HeadingTrimmed(headingInput: string, selected: seq<Cadet>)
    requires selected != [] && Trim(headingInput) != ""
    ensures NominalOf(headingInput, selected).value.rows[0][0] == Some(Text(Trim(headingInput)))
    ensures IsTrimmed(Trim(headingInput))
    ensures Trim(Trim(headingInput)) == Trim(headingInput)
  {
    TrimSpec(headingInput);
    TrimTrimmed(Trim(headingInput));
  }
}
