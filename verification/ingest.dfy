/** Turning one decoded sheet (a header row and data rows of text cells) into
    cadet records: column roles by header search, the row filter, and the
    normalised name, rank and batch of each record. */
module Ingest {
  import opened Wrappers
  import opened Strings
  import opened Sequences
  import opened Batches

  /** A decoded row: `None` is an undefined cell (a hole or a missing cell). */
  type Row = seq<Option<string>>

  /** One cadet. `sheet` is the position of the originating file in the upload
      and stands for the worksheet handle; `rowIndex` is the row's index in it;
      `headers` is that file's header row. */
  datatype Cadet = Cadet(
    name: string,
    rank: string,
    batch: Batch,
    rowData: Row,
    sheet: nat,
    rowIndex: nat,
    headers: Row)

  /** Column positions of the name, rank and registration-number roles; -1 when absent. */
  datatype Roles = Roles(name: int, rank: int, reg: int)

  /** `row[i]`: undefined outside the row, including at index -1. */
  function CellAt(row: Row, i: int): Option<string> {
    if 0 <= i < |row| then row[i] else None
  }

  /** The findIndex test `h && (h.toLowerCase().includes(n1) || ...)`. */
  predicate HeaderMatches(h: Option<string>, needles: seq<string>) {
    h.Some? && h.value != "" && exists n :: n in needles && Contains(Lower(h.value), n)
  }

  /** `findIndex` from position `i` on. */
  function FindFrom(headers: Row, needles: seq<string>, i: nat): (r: int)
    requires i <= |headers|
    ensures r == -1 || i <= r < |headers|
    ensures r >= 0 ==> HeaderMatches(headers[r], needles)
    ensures forall j :: i <= j < (if r < 0 then |headers| else r) ==> !HeaderMatches(headers[j], needles)
    decreases |headers| - i
  {
    if i == |headers| then -1
    else if HeaderMatches(headers[i], needles) then i
    else FindFrom(headers, needles, i + 1)
  }

  /** `headers.findIndex(...)`: the first matching header, or -1 when none matches. */
  function FindIndex(headers: Row, needles: seq<string>): (r: int)
    ensures -1 <= r < |headers|
    ensures r >= 0 ==> HeaderMatches(headers[r], needles)
    ensures forall j :: 0 <= j < (if r < 0 then |headers| else r) ==> !HeaderMatches(headers[j], needles)
  {
    FindFrom(headers, needles, 0)
  }

  /** Roles found by case-insensitive substring search over the header row. */
  function FindRoles(headers: Row): Roles {
    Roles(FindIndex(headers, ["name"]), FindIndex(headers, ["rank"]), FindIndex(headers, ["reg", "regt"]))
  }

  /** `row.some(cell => cell !== undefined && cell !== null && cell !== '')`. */
  predicate HasData(row: Row) {
    exists i :: 0 <= i < |row| && row[i] != None && row[i] != Some("")
  }

  /** A row becomes a record when it holds some data and its name cell is
      present and not blank after trimming. */
  predicate IsCadetRow(row: Row, roles: Roles) {
    HasData(row) && CellAt(row, roles.name).Some? && Trim(CellAt(row, roles.name).value) != ""
  }

  /** The rank: "CDT" when there is no rank column or the cell is empty,
      otherwise the trimmed, upper-cased cell. */
  function RankOf(row: Row, roles: Roles): string {
    if roles.rank < 0 then "CDT"
    else match CellAt(row, roles.rank)
      case None => "CDT"
      case Some(s) => if s == "" then "CDT" else Upper(Trim(s))
  }

  /** The registration number, "" when there is no column or no value. */
  function RegOf(row: Row, roles: Roles): string {
    if roles.reg < 0 then ""
    else match CellAt(row, roles.reg)
      case None => ""
      case Some(s) => s
  }

  /** The record built from row `i` of a sheet whose row 0 is the header. */
  function MakeCadet(rows: seq<Row>, roles: Roles, sheet: nat, i: nat): Cadet
    requires 1 <= i < |rows| && IsCadetRow(rows[i], roles)
  {
    Cadet(Trim(CellAt(rows[i], roles.name).value), RankOf(rows[i], roles), GetBatch(RegOf(rows[i], roles)),
          rows[i], sheet, i, rows[0])
  }

  /** The records of rows 1 .. n-1, in row order: what the loop of the upload
      handler has appended once it has seen those rows. */
  function IngestRows(rows: seq<Row>, roles: Roles, sheet: nat, n: nat): (r: seq<Cadet>)
    requires 1 <= n <= |rows|
    ensures forall k :: 0 <= k < |r| ==> 1 <= r[k].rowIndex < n
    ensures forall k, l :: 0 <= k < l < |r| ==> r[k].rowIndex < r[l].rowIndex
  {
    if n == 1 then []
    else
      IngestRows(rows, roles, sheet, n - 1)
        + (if IsCadetRow(rows[n - 1], roles) then [MakeCadet(rows, roles, sheet, n - 1)] else [])
  }

  /** All records of one sheet; a sheet with fewer than two rows yields none. */
  function IngestSheet(rows: seq<Row>, sheet: nat): seq<Cadet> {
    if |rows| < 2 then [] else IngestRows(rows, FindRoles(rows[0]), sheet, |rows|)
  }

  /** Every record is the one built from a qualifying row, the row whose index it keeps. */
  lemma {:induction false} IngestRowsSound(rows: seq<Row>, roles: Roles, sheet: nat, n: nat)
    requires 1 <= n <= |rows|
    ensures forall c :: c in IngestRows(rows, roles, sheet, n) ==>
      1 <= c.rowIndex < n && IsCadetRow(rows[c.rowIndex], roles) && c == MakeCadet(rows, roles, sheet, c.rowIndex)
  {
    if n > 1 {
      IngestRowsSound(rows, roles, sheet, n - 1);
    }
  }

  /** Every qualifying row of the sheet gives its record: together with the
      contract of IngestRows, the records are exactly those of the qualifying rows. */
  lemma IngestComplete(rows: seq<Row>, sheet: nat, i: nat)
    requires 1 <= i < |rows| && IsCadetRow(rows[i], FindRoles(rows[0]))
    ensures MakeCadet(rows, FindRoles(rows[0]), sheet, i) in IngestSheet(rows, sheet)
  {
    IngestRowsComplete(rows, FindRoles(rows[0]), sheet, |rows|, i);
  }

  lemma {:induction false} IngestRowsComplete(rows: seq<Row>, roles: Roles, sheet: nat, n: nat, i: nat)
    requires 1 <= i < n <= |rows| && IsCadetRow(rows[i], roles)
    ensures MakeCadet(rows, roles, sheet, i) in IngestRows(rows, roles, sheet, n)
  {
    var prev := IngestRows(rows, roles, sheet, n - 1);
    var last := if IsCadetRow(rows[n - 1], roles) then [MakeCadet(rows, roles, sheet, n - 1)] else [];
    assert IngestRows(rows, roles, sheet, n) == prev + last;
    if i < n - 1 {
      IngestRowsComplete(rows, roles, sheet, n - 1, i);
    }
  }

  /** Rows that do not qualify contribute nothing. */
  lemma {:induction false} NoQualifyingRows(rows: seq<Row>, roles: Roles, sheet: nat, n: nat)
    requires 1 <= n <= |rows|
    requires forall i :: 1 <= i < n ==> !IsCadetRow(rows[i], roles)
    ensures IngestRows(rows, roles, sheet, n) == []
  {
    if n > 1 {
      NoQualifyingRows(rows, roles, sheet, n - 1);
    }
  }

  /** The record invariants: the name is non-blank and trimmed, the rank is
      trimmed and upper-case ("CDT" when unset), the record keeps its sheet, its
      row and that sheet's header row. */
  lemma IngestRecords(rows: seq<Row>, sheet: nat)
    ensures forall c :: c in IngestSheet(rows, sheet) ==>
      && c.name != "" && IsTrimmed(c.name)
      && IsTrimmed(c.rank) && Upper(c.rank) == c.rank
      && c.sheet == sheet && 1 <= c.rowIndex < |rows|
      && c.rowData == rows[c.rowIndex] && c.headers == rows[0]
  {
    if |rows| >= 2 {
      var roles := FindRoles(rows[0]);
      IngestRowsSound(rows, roles, sheet, |rows|);
      forall c | c in IngestSheet(rows, sheet)
        ensures c.name != "" && IsTrimmed(c.name) && IsTrimmed(c.rank) && Upper(c.rank) == c.rank
      {
        var row := rows[c.rowIndex];
        RankNormalised(row, roles);
        TrimSpec(CellAt(row, roles.name).value);
      }
    }
  }

  /** A record exists only where its sheet's header row has a name column;
      in particular that header row is not empty. */
  lemma RecordsHaveNameColumn(rows: seq<Row>, sheet: nat)
    ensures forall c :: c in IngestSheet(rows, sheet) ==> FindIndex(c.headers, ["name"]) >= 0
    ensures forall c :: c in IngestSheet(rows, sheet) ==> c.headers != []
  {
    if |rows| >= 2 {
      IngestRowsSound(rows, FindRoles(rows[0]), sheet, |rows|);
    }
  }

  /** The rank is always trimmed and has no lower-case letter. */
  lemma RankNormalised(row: Row, roles: Roles)
    ensures IsTrimmed(RankOf(row, roles)) && Upper(RankOf(row, roles)) == RankOf(row, roles)
  {
    if roles.rank >= 0 && CellAt(row, roles.rank).Some? && CellAt(row, roles.rank).value != "" {
      var t := Trim(CellAt(row, roles.rank).value);
      TrimSpec(CellAt(row, roles.rank).value);
      UpperKeepsTrimmed(t);
      UpperIdempotent(t);
    }
  }

  /** Each record's rank and batch are read off its own row with its own
      sheet's column roles: the rank is "CDT" when that sheet has no rank
      column, and the batch is C when it has no registration-number column. */
  lemma RecordDefaults(rows: seq<Row>, sheet: nat)
    ensures forall c :: c in IngestSheet(rows, sheet) ==>
      && c.rank == RankOf(c.rowData, FindRoles(c.headers))
      && c.batch == GetBatch(RegOf(c.rowData, FindRoles(c.headers)))
      && (FindRoles(c.headers).rank == -1 ==> c.rank == "CDT")
      && (FindRoles(c.headers).reg == -1 ==> c.batch == C)
  {
    GetBatchEmpty();
    if |rows| >= 2 {
      IngestRowsSound(rows, FindRoles(rows[0]), sheet, |rows|);
    }
  }

  /** A rank cell holding only whitespace is truthy, so it is not defaulted:
      it becomes the empty rank. */
  lemma BlankRankIsEmpty(row: Row, roles: Roles)
    requires roles.rank >= 0 && CellAt(row, roles.rank).Some?
    requires CellAt(row, roles.rank).value != "" && AllSpace(CellAt(row, roles.rank).value)
    ensures RankOf(row, roles) == ""
  {
    TrimEmpty(CellAt(row, roles.rank).value);
  }

  /** Without a column whose header mentions "name", no row qualifies. */
  lemma {:induction false} NoNameColumnNoRecords(rows: seq<Row>, sheet: nat)
    requires |rows| >= 1 && FindRoles(rows[0]).name == -1
    ensures IngestSheet(rows, sheet) == []
  {
    if |rows| >= 2 {
      NoQualifyingRows(rows, FindRoles(rows[0]), sheet, |rows|);
    }
  }

  /** The first n files of an upload all decoded. */
  predicate Decoded(files: seq<Option<seq<Row>>>, n: nat) {
    n <= |files| && forall j :: 0 <= j < n ==> files[j].Some?
  }

  /** The records of the first n files of an upload, file after file in upload
      order; file j is read as sheet j. */
  function IngestFiles(files: seq<Option<seq<Row>>>, n: nat): seq<Cadet>
    requires Decoded(files, n)
  {
    if n == 0 then []
    else IngestFiles(files, n - 1) + IngestSheet(files[n - 1].value, n - 1)
  }

  /** Records are listed by (sheet, row) in strictly increasing order. */
  ghost predicate SourceOrdered(s: seq<Cadet>) {
    forall k, l :: 0 <= k < l < |s| ==>
      s[k].sheet < s[l].sheet || (s[k].sheet == s[l].sheet && s[k].rowIndex < s[l].rowIndex)
  }

  lemma IngestSheetOrdered(rows: seq<Row>, sheet: nat)
    ensures SourceOrdered(IngestSheet(rows, sheet))
    ensures forall c :: c in IngestSheet(rows, sheet) ==> c.sheet == sheet
  {
    if |rows| >= 2 {
      IngestRowsSound(rows, FindRoles(rows[0]), sheet, |rows|);
    }
  }

  /** Appending the records of a later sheet keeps the (sheet, row) order. */
  lemma AppendSheetOrdered(prev: seq<Cadet>, rows: seq<Row>, sheet: nat)
    requires SourceOrdered(prev) && forall c :: c in prev ==> c.sheet < sheet
    ensures SourceOrdered(prev + IngestSheet(rows, sheet))
    ensures forall c :: c in prev + IngestSheet(rows, sheet) ==> c.sheet <= sheet
  {
    var s := IngestSheet(rows, sheet);
    IngestSheetOrdered(rows, sheet);
    var t := prev + s;
    forall k, l | 0 <= k < l < |t|
      ensures t[k].sheet < t[l].sheet || (t[k].sheet == t[l].sheet && t[k].rowIndex < t[l].rowIndex)
    {
      if l < |prev| {
        assert t[k] == prev[k] && t[l] == prev[l];
      } else if k < |prev| {
        assert t[k] in prev && t[l] in s;
      } else {
        assert t[k] == s[k - |prev|] && t[l] == s[l - |prev|];
      }
    }
  }

  /** The records of an upload are listed by (file, row), every file after
      the ones uploaded before it; in particular no record occurs twice. */
  lemma {:induction false} IngestFilesOrdered(files: seq<Option<seq<Row>>>, n: nat)
    requires Decoded(files, n)
    ensures SourceOrdered(IngestFiles(files, n))
    ensures forall c :: c in IngestFiles(files, n) ==> c.sheet < n
  {
    if n > 0 {
      IngestFilesOrdered(files, n - 1);
      IngestFilesStep(files, n);
    }
  }

  lemma IngestFilesStep(files: seq<Option<seq<Row>>>, n: nat)
    requires 0 < n && Decoded(files, n)
    requires SourceOrdered(IngestFiles(files, n - 1))
    requires forall c :: c in IngestFiles(files, n - 1) ==> c.sheet < n - 1
    ensures SourceOrdered(IngestFiles(files, n))
    ensures forall c :: c in IngestFiles(files, n) ==> c.sheet < n
  {
    var prev := IngestFiles(files, n - 1);
    var rows := files[n - 1].value;
    AppendSheetOrdered(prev, rows, n - 1);
    assert IngestFiles(files, n) == prev + IngestSheet(rows, n - 1);
  }

  /** Records at different (sheet, row) places differ, so an ordered list has
      no repeats: `indexOf` of a listed record is its own position. */
  lemma OrderedDistinct(s: seq<Cadet>)
    requires SourceOrdered(s)
    ensures Distinct(s)
  {
  }
}
